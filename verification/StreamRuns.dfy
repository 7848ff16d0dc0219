/**
 Whole runs of the timestamp synchroniser. Producers offer data, raise bounds and
 close streams in any order; a poll asks for readiness and, when a timestamp is
 complete, hands the task one batch. The source does not check what producers
 offer, so it is the one assumption here that they respect the bound: a datum is
 no earlier than its stream's bound and earlier than TIMESTAMP_END.
 */
module StreamRuns {
  import opened StreamSync

  // What the task saw at one timestamp: the queue of each of its inputs.
  datatype Batch<V> = Batch(ts: int, seen: seq<seq<Datum<V>>>)

  datatype Sys<V> = Sys(streams: seq<Stream<V>>, inputs: seq<Input<V>>,
                        admitted: seq<seq<Datum<V>>>, batches: seq<Batch<V>>)

  datatype Event<V> = Offer(id: nat, data: seq<Datum<V>>) | Raise(id: nat, ts: int) | CloseStream(id: nat) | Poll

  predicate Admissible<V>(s: Stream<V>, d: Datum<V>) { d.Item? && s.bound <= d.ts < TIMESTAMP_END }

  predicate Increasing<V>(q: seq<Datum<V>>) { forall i, j :: 0 <= i < j < |q| ==> q[i].ts < q[j].ts }

  predicate Legal<V>(sys: Sys<V>, e: Event<V>) {
    match e
    case Offer(id, data) =>
      id < |sys.streams| && Increasing(data) && forall k :: 0 <= k < |data| ==> Admissible(sys.streams[id], data[k])
    case Raise(id, ts) => id < |sys.streams| && ts <= CTIME_MAX
    case CloseStream(id) => id < |sys.streams|
    case Poll => true
  }

  function PopAll<V>(ss: seq<Stream<V>>, ts: int): (r: seq<Stream<V>>)
    ensures |r| == |ss| && forall i :: 0 <= i < |r| ==> r[i] == AfterPop(ss[i], ts)
  {
    seq(|ss|, i requires 0 <= i < |ss| => AfterPop(ss[i], ts))
  }

  // The inputs after SyncAt, as its contract gives them.
  function MarshalAll<V>(ss: seq<Stream<V>>, inputs: seq<Input<V>>, ts: int): (r: seq<Input<V>>)
    requires |inputs| == |ss|
    ensures |r| == |ss|
    ensures forall i :: 0 <= i < |r| ==> r[i] == Marshal(inputs[i], Popped(ss[i], ts), Done(AfterPop(ss[i], ts)))
  {
    seq(|ss|, i requires 0 <= i < |ss| => Marshal(inputs[i], Popped(ss[i], ts), Done(AfterPop(ss[i], ts))))
  }

  // PostProcess empties the inputs and leaves their end marks.
  function Cleared<V>(inputs: seq<Input<V>>): (r: seq<Input<V>>)
    ensures |r| == |inputs| && forall i :: 0 <= i < |r| ==> r[i] == Input([], inputs[i].done)
  {
    seq(|inputs|, i requires 0 <= i < |inputs| => Input([], inputs[i].done))
  }

  function Queues<V>(inputs: seq<Input<V>>): (r: seq<seq<Datum<V>>>)
    ensures |r| == |inputs| && forall i :: 0 <= i < |r| ==> r[i] == inputs[i].queue
  {
    seq(|inputs|, i requires 0 <= i < |inputs| => inputs[i].queue)
  }

  function Step<V>(sys: Sys<V>, e: Event<V>): Sys<V>
    requires Legal(sys, e) && |sys.inputs| == |sys.admitted| == |sys.streams|
  {
    match e
    case Offer(id, data) =>
      sys.(streams := sys.streams[id := AddTo(sys.streams[id], data)],
           admitted := sys.admitted[id := sys.admitted[id] + data])
    case Raise(id, ts) => sys.(streams := sys.streams[id := RaiseTo(sys.streams[id], ts)])
    case CloseStream(id) => sys.(streams := sys.streams[id := CloseOf(sys.streams[id])])
    case Poll =>
      match ReadinessOf(sys.streams)
      case ReadyForProcess(ts) =>
        var inputs := MarshalAll(sys.streams, sys.inputs, ts);
        Sys(PopAll(sys.streams, ts), Cleared(inputs), sys.admitted, sys.batches + [Batch(ts, Queues(inputs))])
      case _ => sys
  }

  // ---------- what every run keeps ----------

  predicate StreamOk<V>(s: Stream<V>) {
    && TIMESTAMP_BEGIN <= s.bound <= CTIME_MAX && Increasing(s.queue) && (s.closed ==> s.bound == CTIME_MAX)
    && forall k :: 0 <= k < |s.queue| ==> s.queue[k].Item? && TIMESTAMP_BEGIN <= s.queue[k].ts < TIMESTAMP_END && s.queue[k].ts < s.bound
  }

  function Items<V>(q: seq<Datum<V>>): seq<Datum<V>> {
    if q == [] then [] else Items(q[..|q| - 1]) + if q[|q| - 1].Item? then [q[|q| - 1]] else []
  }

  // The data that input i has seen, batch after batch.
  function Delivered<V>(batches: seq<Batch<V>>, i: nat): seq<Datum<V>> {
    if batches == [] then []
    else
      var b := batches[|batches| - 1];
      Delivered(batches[..|batches| - 1], i) + if i < |b.seen| then Items(b.seen[i]) else []
  }

  // One datum or an end mark per input, real data exactly at the batch's
  // timestamp, and at least one of them.
  predicate Aligned<V>(b: Batch<V>, n: nat) {
    && |b.seen| == n
    && (forall i :: 0 <= i < n ==> |b.seen[i]| == 1 && (b.seen[i][0].Item? ==> b.seen[i][0].ts == b.ts))
    && exists i :: 0 <= i < n && b.seen[i][0].Item?
  }

  ghost predicate Inv<V>(sys: Sys<V>) {
    var n := |sys.streams|;
    && |sys.inputs| == n && |sys.admitted| == n
    && (forall i :: 0 <= i < n ==> StreamOk(sys.streams[i]))
    && (forall i :: 0 <= i < n ==> sys.inputs[i].queue == [])
    && (forall i :: 0 <= i < n ==> sys.inputs[i].done ==> Done(sys.streams[i]))
    && (forall i :: 0 <= i < n ==> sys.admitted[i] == Delivered(sys.batches, i) + sys.streams[i].queue)
    && (forall k :: 0 <= k < |sys.batches| ==> Aligned(sys.batches[k], n))
    && (forall k, l :: 0 <= k < l < |sys.batches| ==> sys.batches[k].ts < sys.batches[l].ts)
    && (forall k, i :: 0 <= k < |sys.batches| && 0 <= i < n ==> sys.batches[k].ts < NextOrBound(sys.streams[i]))
  }

  function Init<V>(n: nat): Sys<V> {
    Sys(seq(n, _ => Stream([], TIMESTAMP_BEGIN, false)), seq(n, _ => Input([], false)), seq(n, _ => []), [])
  }

  lemma InitInv<V>(n: nat)
    ensures Inv(Init<V>(n)) && |Init<V>(n).streams| == n && Init<V>(n).batches == []
    ensures forall i :: 0 <= i < n ==> Init<V>(n).streams[i] == Stream([], TIMESTAMP_BEGIN, false)
  {
  }

  // The minima are lower bounds, and attained unless there is nothing to minimise.
  lemma {:induction false} MinFacts<V>(ss: seq<Stream<V>>)
    ensures forall i :: 0 <= i < |ss| && ss[i].queue == [] ==> MinBound(ss) <= ss[i].bound
    ensures forall i :: 0 <= i < |ss| && ss[i].queue != [] ==> MinDatum(ss) <= ss[i].queue[0].ts
    ensures MinBound(ss) == CTIME_MAX || exists i :: 0 <= i < |ss| && ss[i].queue == [] && ss[i].bound == MinBound(ss)
    ensures MinDatum(ss) == CTIME_MAX || exists i :: 0 <= i < |ss| && ss[i].queue != [] && ss[i].queue[0].ts == MinDatum(ss)
  {
    if ss != [] {
      var n := |ss| - 1;
      var init := ss[..n];
      MinFacts(init);
      assert forall i :: 0 <= i < n ==> ss[i] == init[i];
    }
  }

  // Popping at a timestamp that no head or bound precedes takes the head that is
  // exactly there and moves everything else past it.
  lemma PopOne<V>(s: Stream<V>, ts: int)
    requires StreamOk(s) && ts <= NextOrBound(s) && ts < TIMESTAMP_END && (s.queue == [] ==> ts < s.bound)
    ensures var hit := s.queue != [] && s.queue[0].ts == ts;
            && AfterPop(s, ts) == s.(queue := if hit then s.queue[1..] else s.queue)
            && (if hit then Popped(s, ts) == s.queue[0] && Popped(s, ts).Item? else Popped(s, ts).Nil?)
    ensures StreamOk(AfterPop(s, ts)) && ts < NextOrBound(AfterPop(s, ts))
  {
    if s.queue != [] && s.queue[0].ts == ts {
      assert Taken(s.queue[1..], ts) == 0;
      assert Taken(s.queue, ts) == 1;
    } else {
      assert Taken(s.queue, ts) == 0;
      assert s.queue[0..] == s.queue;
    }
  }

  // What a poll finds at every stream when a timestamp is complete.
  lemma ProcessFacts<V>(ss: seq<Stream<V>>, ts: int)
    requires ReadinessOf(ss) == ReadyForProcess(ts)
    ensures ts < TIMESTAMP_END
    ensures forall i :: 0 <= i < |ss| ==> ts <= NextOrBound(ss[i]) && (ss[i].queue == [] ==> ts < ss[i].bound)
    ensures exists i :: 0 <= i < |ss| && ss[i].queue != [] && ss[i].queue[0].ts == ts
  {
    MinFacts(ss);
  }

  // One input of one batch: exactly the popped datum, and it is accounted for.
  lemma MarshalOne<V>(s: Stream<V>, input: Input<V>, ts: int)
    requires StreamOk(s) && ts <= NextOrBound(s) && ts < TIMESTAMP_END && (s.queue == [] ==> ts < s.bound)
    requires input.queue == [] && (input.done ==> Done(s))
    ensures var after := Marshal(input, Popped(s, ts), Done(AfterPop(s, ts)));
            && after.queue == [Popped(s, ts)] && after.done == Done(AfterPop(s, ts))
            && s.queue == Items(after.queue) + AfterPop(s, ts).queue
            && (Popped(s, ts).Item? ==> Popped(s, ts).ts == ts)
  {
    hide AfterPop, Popped, StreamOk, Items, NextOrBound;
    PopOne(s, ts);
    ItemsOne(Popped(s, ts));
    if s.queue != [] && s.queue[0].ts == ts {
      assert s.queue == [s.queue[0]] + s.queue[1..];
    }
  }

  lemma ItemsOne<V>(d: Datum<V>)
    ensures Items([d]) == if d.Item? then [d] else []
  {
  }

  // What a poll at ts does to stream i and input i of the system.
  ghost predicate Moved<V>(s: Stream<V>, t: Stream<V>, input: Input<V>, seen: seq<Datum<V>>, ts: int) {
    && StreamOk(t) && ts < NextOrBound(t) && NextOrBound(s) <= NextOrBound(t)
    && seen == [Popped(s, ts)] && (seen[0].Item? ==> seen[0].ts == ts)
    && input.queue == [] && (input.done ==> Done(t))
    && s.queue == Items(seen) + t.queue
  }

  lemma MoveOne<V>(s: Stream<V>, input: Input<V>, ts: int)
    requires StreamOk(s) && ts <= NextOrBound(s) && ts < TIMESTAMP_END && (s.queue == [] ==> ts < s.bound)
    requires input.queue == [] && (input.done ==> Done(s))
    ensures var m := Marshal(input, Popped(s, ts), Done(AfterPop(s, ts)));
            Moved(s, AfterPop(s, ts), Input([], m.done), m.queue, ts)
  {
    hide AfterPop, Popped, StreamOk, NextOrBound, Items, Done, Marshal;
    PopOne(s, ts);
    MarshalOne(s, input, ts);
    PopLater(s, ts);
  }

  lemma PollMoves<V>(sys: Sys<V>, ts: int, i: nat)
    requires Inv(sys) && ReadinessOf(sys.streams) == ReadyForProcess(ts) && i < |sys.streams|
    ensures var after := Step(sys, Poll);
            Moved(sys.streams[i], after.streams[i], after.inputs[i], after.batches[|sys.batches|].seen[i], ts)
  {
    hide ReadinessOf, AfterPop, Popped, StreamOk, NextOrBound, Done, Marshal, Moved;
    ProcessFacts(sys.streams, ts);
    InvOf(sys, i);
    hide Inv;
    MoveOne(sys.streams[i], sys.inputs[i], ts);
  }

  lemma InvOf<V>(sys: Sys<V>, i: nat)
    requires Inv(sys) && i < |sys.streams|
    ensures |sys.inputs| == |sys.streams| && StreamOk(sys.streams[i])
    ensures sys.inputs[i].queue == [] && (sys.inputs[i].done ==> Done(sys.streams[i]))
  {
  }

  lemma DeliveredGrows<V>(batches: seq<Batch<V>>, b: Batch<V>, i: nat, s: Stream<V>, t: Stream<V>)
    requires i < |b.seen| && s.queue == Items(b.seen[i]) + t.queue
    ensures Delivered(batches, i) + s.queue == Delivered(batches + [b], i) + t.queue
  {
  }

  lemma PollKeeps<V>(sys: Sys<V>, ts: int)
    requires Inv(sys) && ReadinessOf(sys.streams) == ReadyForProcess(ts)
    ensures Inv(Step(sys, Poll))
  {
    hide ReadinessOf, StreamOk, NextOrBound, Items, Done, Aligned, Delivered, AfterPop, Popped, Marshal;
    var ss, n := sys.streams, |sys.streams|;
    var after := Step(sys, Poll);
    var b := after.batches[|sys.batches|];
    ProcessFacts(ss, ts);
    forall i | 0 <= i < n
      ensures Moved(ss[i], after.streams[i], after.inputs[i], b.seen[i], ts)
      ensures after.admitted[i] == Delivered(after.batches, i) + after.streams[i].queue
    {
      PollMoves(sys, ts, i);
      DeliveredGrows(sys.batches, b, i, ss[i], after.streams[i]);
    }
    SomeItem(ss, ts, b);
    forall k | 0 <= k < |sys.batches| ensures sys.batches[k].ts < ts {
      SomeNext(ss, ts, sys.batches[k].ts);
    }
  }

  // Heads and bounds never move back.
  lemma PopLater<V>(s: Stream<V>, ts: int)
    requires StreamOk(s) && ts <= NextOrBound(s) && ts < TIMESTAMP_END && (s.queue == [] ==> ts < s.bound)
    ensures NextOrBound(s) <= NextOrBound(AfterPop(s, ts))
  {
  }

  lemma SomeItem<V>(ss: seq<Stream<V>>, ts: int, b: Batch<V>)
    requires forall i :: 0 <= i < |ss| ==> StreamOk(ss[i]) && ts <= NextOrBound(ss[i]) && (ss[i].queue == [] ==> ts < ss[i].bound)
    requires ts < TIMESTAMP_END && exists i :: 0 <= i < |ss| && ss[i].queue != [] && ss[i].queue[0].ts == ts
    requires b.ts == ts && |b.seen| == |ss|
    requires forall i :: 0 <= i < |ss| ==> b.seen[i] == [Popped(ss[i], ts)] && (b.seen[i][0].Item? ==> b.seen[i][0].ts == ts)
    ensures Aligned(b, |ss|)
  {
    var i :| 0 <= i < |ss| && ss[i].queue != [] && ss[i].queue[0].ts == ts;
    PopOne(ss[i], ts);
    assert b.seen[i][0].Item?;
  }

  // The timestamp of a batch is the head of some stream, past all earlier ones.
  lemma SomeNext<V>(ss: seq<Stream<V>>, ts: int, earlier: int)
    requires exists i :: 0 <= i < |ss| && ss[i].queue != [] && ss[i].queue[0].ts == ts
    requires forall i :: 0 <= i < |ss| ==> earlier < NextOrBound(ss[i])
    ensures earlier < ts
  {
  }

  // A producer's move on one stream.
  lemma ProducerKeeps<V>(s: Stream<V>, t: Stream<V>, data: seq<Datum<V>>, ts: int)
    requires StreamOk(s) && ts <= CTIME_MAX
    requires Increasing(data) && forall k :: 0 <= k < |data| ==> Admissible(s, data[k])
    requires t == AddTo(s, data) || (data == [] && (t == RaiseTo(s, ts) || t == CloseOf(s)))
    ensures StreamOk(t) && t.queue == s.queue + data
    ensures NextOrBound(s) <= NextOrBound(t) && (Done(s) ==> Done(t))
  {
  }

  lemma {:induction false} StepKeeps<V>(sys: Sys<V>, e: Event<V>)
    requires Inv(sys) && Legal(sys, e)
    ensures Inv(Step(sys, e))
  {
    hide ReadinessOf, StreamOk, NextOrBound, AddTo, RaiseTo, CloseOf, Done, Aligned, Delivered, Increasing, Admissible;
    match e
    case Offer(id, data) =>
      ProducerKeeps(sys.streams[id], AddTo(sys.streams[id], data), data, CTIME_MAX);
    case Raise(id, ts) =>
      NothingLegal(sys.streams[id]);
      ProducerKeeps(sys.streams[id], RaiseTo(sys.streams[id], ts), [], ts);
    case CloseStream(id) =>
      NothingLegal(sys.streams[id]);
      ProducerKeeps(sys.streams[id], CloseOf(sys.streams[id]), [], CTIME_MAX);
    case Poll =>
      match ReadinessOf(sys.streams)
      case ReadyForProcess(ts) => PollKeeps(sys, ts);
      case _ =>
  }

  lemma NothingLegal<V>(s: Stream<V>)
    ensures Increasing<V>([]) && s.queue + [] == s.queue
  {
  }

  /** After data are added, a later datum is admissible exactly when it comes after
      the last one and before TIMESTAMP_END. */
  lemma AdmissibleAfterAdd<V>(s: Stream<V>, data: seq<Datum<V>>, d: Datum<V>)
    requires data != []
    ensures Admissible(AddTo(s, data), d) <==> d.Item? && data[|data| - 1].ts < d.ts < TIMESTAMP_END
  {
  }

  /** An offer of increasing data at or above the bound is allowed; it queues them on
      its stream and admits them there, and touches nothing else. */
  lemma OfferMeans<V>(sys: Sys<V>, id: nat, data: seq<Datum<V>>)
    requires |sys.inputs| == |sys.admitted| == |sys.streams| && id < |sys.streams|
    requires forall i, j :: 0 <= i < j < |data| ==> data[i].ts < data[j].ts
    requires forall k :: 0 <= k < |data| ==> data[k].Item? && sys.streams[id].bound <= data[k].ts < TIMESTAMP_END
    ensures Legal(sys, Offer(id, data))
    ensures var after := Step(sys, Offer(id, data));
            && |after.streams| == |sys.streams| == |after.admitted|
            && after.streams[id].queue == sys.streams[id].queue + data && after.admitted[id] == sys.admitted[id] + data
            && after.batches == sys.batches && after.inputs == sys.inputs
            && forall i :: 0 <= i < |sys.streams| && i != id ==>
                 after.streams[i] == sys.streams[i] && after.admitted[i] == sys.admitted[i]
  {
  }

  // ---------- whole runs ----------

  predicate LegalRun<V>(sys: Sys<V>, es: seq<Event<V>>)
    decreases |es|
  {
    es == [] ||
    (|sys.inputs| == |sys.admitted| == |sys.streams| && Legal(sys, es[0]) && LegalRun(Step(sys, es[0]), es[1..]))
  }

  function Run<V>(sys: Sys<V>, es: seq<Event<V>>): Sys<V>
    requires LegalRun(sys, es)
    decreases |es|
  {
    if es == [] then sys else Run(Step(sys, es[0]), es[1..])
  }

  // A run does its events in order.
  lemma {:induction false} RunSnoc<V>(sys: Sys<V>, es: seq<Event<V>>, e: Event<V>)
    requires Inv(sys) && LegalRun(sys, es) && Legal(Run(sys, es), e)
    ensures Inv(Run(sys, es)) && LegalRun(sys, es + [e]) && Run(sys, es + [e]) == Step(Run(sys, es), e)
    decreases |es|
  {
    hide Inv, Step, Legal;
    InvSizes(sys);
    if es == [] {
      assert es + [e] == [e] && [e][1..] == [];
    } else {
      StepKeeps(sys, es[0]);
      RunSnoc(Step(sys, es[0]), es[1..], e);
      assert (es + [e])[1..] == es[1..] + [e];
    }
  }

  lemma {:induction false} RunKeeps<V>(sys: Sys<V>, es: seq<Event<V>>)
    requires Inv(sys) && LegalRun(sys, es)
    ensures Inv(Run(sys, es)) && |Run(sys, es).streams| == |sys.streams|
    decreases |es|
  {
    hide Inv, Step, Legal;
    if es != [] {
      SameStreams(sys, es[0]);
      StepKeeps(sys, es[0]);
      RunKeeps(Step(sys, es[0]), es[1..]);
    }
  }

  lemma SameStreams<V>(sys: Sys<V>, e: Event<V>)
    requires |sys.inputs| == |sys.admitted| == |sys.streams| && Legal(sys, e)
    ensures |Step(sys, e).streams| == |sys.streams|
  {
  }

  /** Every run from empty streams: processed timestamps strictly increase, each
      batch holds real data of its own timestamp only, and what a stream admitted
      is what its input has seen, in order and once each, followed by what is
      still queued. */
  lemma RunsAreSafe<V>(n: nat, es: seq<Event<V>>)
    requires LegalRun(Init<V>(n), es)
    ensures var sys := Run(Init<V>(n), es);
            && |sys.streams| == |sys.admitted| == n
            && (forall k, l :: 0 <= k < l < |sys.batches| ==> sys.batches[k].ts < sys.batches[l].ts)
            && (forall k :: 0 <= k < |sys.batches| ==> Aligned(sys.batches[k], |sys.streams|))
            && (forall i :: 0 <= i < |sys.streams| ==>
                  sys.admitted[i] == Delivered(sys.batches, i) + sys.streams[i].queue)
  {
    hide Step, Legal, Aligned, Delivered, StreamOk, NextOrBound, Done, LegalRun, Run;
    InitInv<V>(n);
    RunKeeps(Init<V>(n), es);
  }

  // A processed timestamp is complete: nothing at or before it can still come.
  lemma ProcessedIsComplete<V>(sys: Sys<V>, k: nat, i: nat, d: Datum<V>)
    requires Inv(sys) && k < |sys.batches| && i < |sys.streams| && Admissible(sys.streams[i], d)
    ensures sys.batches[k].ts < d.ts
  {
  }

  // The set waits only for a stream that may still admit a datum no later than
  // every datum already queued.
  lemma WaitIsJustified<V>(ss: seq<Stream<V>>)
    requires ReadinessOf(ss) == NotReady
    ensures exists i :: 0 <= i < |ss| && ss[i].queue == [] && ss[i].bound < TIMESTAMP_END
                        && forall j :: 0 <= j < |ss| && ss[j].queue != [] ==> ss[i].bound <= ss[j].queue[0].ts
  {
    MinFacts(ss);
    var i :| 0 <= i < |ss| && ss[i].queue == [] && ss[i].bound == MinBound(ss);
    assert forall j :: 0 <= j < |ss| && ss[j].queue != [] ==> ss[i].bound <= ss[j].queue[0].ts;
  }

  // Nothing queued and nothing to come.
  ghost predicate Finished<V>(ss: seq<Stream<V>>) {
    forall i :: 0 <= i < |ss| ==> ss[i].queue == [] && ss[i].bound >= TIMESTAMP_END
  }

  // Close is reported exactly when every stream is empty and admits nothing more.
  lemma CloseMeansFinished<V>(sys: Sys<V>)
    requires Inv(sys)
    ensures ReadinessOf(sys.streams) == ReadyForClose <==> Finished(sys.streams)
  {
    hide Aligned, Delivered, Done;
    var ss := sys.streams;
    MinFacts(ss);
    forall i | 0 <= i < |ss| && MinDatum(ss) >= TIMESTAMP_END && MinBound(ss) >= TIMESTAMP_END
      ensures ss[i].queue == [] && ss[i].bound >= TIMESTAMP_END
    {
      assert StreamOk(ss[i]);
    }
  }

  lemma FinishedStays<V>(sys: Sys<V>, e: Event<V>)
    requires Inv(sys) && Finished(sys.streams) && Legal(sys, e)
    ensures Finished(Step(sys, e).streams)
    ensures Step(sys, e).admitted == sys.admitted && Step(sys, e).batches == sys.batches
  {
    hide Aligned, Delivered, Done, MinBound, MinDatum;
    CloseMeansFinished(sys);
    match e
    case Offer(id, data) =>
      assert |data| > 0 ==> Admissible(sys.streams[id], data[0]);
      assert data == [];
      assert sys.admitted[id] + data == sys.admitted[id];
    case _ =>
  }

  /** Once close is reported, all that was admitted has been delivered, and no
      continuation of the run admits or delivers anything more. */
  lemma {:induction false} CloseIsFinal<V>(sys: Sys<V>, es: seq<Event<V>>)
    requires Inv(sys) && ReadinessOf(sys.streams) == ReadyForClose && LegalRun(sys, es)
    ensures forall i :: 0 <= i < |sys.streams| ==> sys.admitted[i] == Delivered(sys.batches, i)
    ensures Run(sys, es).admitted == sys.admitted && Run(sys, es).batches == sys.batches
    ensures ReadinessOf(Run(sys, es).streams) == ReadyForClose
    decreases |es|
  {
    hide Aligned, Delivered, Done, ReadinessOf, StreamOk, NextOrBound, Legal, Step;
    CloseMeansFinished(sys);
    forall i | 0 <= i < |sys.streams| ensures sys.admitted[i] == Delivered(sys.batches, i) {
      assert sys.admitted[i] == Delivered(sys.batches, i) + [];
    }
    if es != [] {
      StepKeeps(sys, es[0]);
      FinishedStays(sys, es[0]);
      CloseMeansFinished(Step(sys, es[0]));
      hide Inv;
      CloseIsFinal(Step(sys, es[0]), es[1..]);
    }
  }

  // ---------- closing ends the run ----------

  // Nothing more can be admitted anywhere.
  ghost predicate AllEnded<V>(ss: seq<Stream<V>>) { forall i :: 0 <= i < |ss| ==> ss[i].bound == CTIME_MAX }

  // The number of data in all queues.
  function Queued<V>(ss: seq<Stream<V>>): nat {
    if ss == [] then 0 else Queued(ss[..|ss| - 1]) + |ss[|ss| - 1].queue|
  }

  lemma {:induction false} QueuedLess<V>(ss: seq<Stream<V>>, ts: seq<Stream<V>>, k: nat)
    requires |ss| == |ts| && forall i :: 0 <= i < |ss| ==> |ts[i].queue| <= |ss[i].queue|
    ensures Queued(ts) <= Queued(ss)
    ensures k < |ss| && |ts[k].queue| < |ss[k].queue| ==> Queued(ts) < Queued(ss)
  {
    if ss != [] {
      QueuedLess(ss[..|ss| - 1], ts[..|ts| - 1], k);
    }
  }

  // A poll that is not the end takes something off the queues.
  lemma PollDrains<V>(sys: Sys<V>)
    requires Inv(sys) && AllEnded(sys.streams) && ReadinessOf(sys.streams) != ReadyForClose
    ensures ReadinessOf(sys.streams).ReadyForProcess?
    ensures AllEnded(Step(sys, Poll).streams) && Queued(Step(sys, Poll).streams) < Queued(sys.streams)
  {
    hide StreamOk, Aligned, Delivered, Done, Queued, AfterPop, Popped, Marshal, ReadinessOf;
    var ss := sys.streams;
    assert ReadinessOf(ss).ReadyForProcess? by {
      if ReadinessOf(ss) == NotReady { WaitIsJustified(ss); }
    }
    var ts := ReadinessOf(ss).ts;
    ProcessFacts(ss, ts);
    var after := Step(sys, Poll).streams;
    forall i | 0 <= i < |ss|
      ensures after[i].bound == CTIME_MAX && |after[i].queue| <= |ss[i].queue|
      ensures ss[i].queue != [] && ss[i].queue[0].ts == ts ==> |after[i].queue| < |ss[i].queue|
    {
      PopOne(ss[i], ts);
    }
    var k :| 0 <= k < |ss| && ss[k].queue != [] && ss[k].queue[0].ts == ts;
    QueuedLess(ss, after, k);
  }

  function Polls<V>(k: nat): seq<Event<V>> { seq(k, _ => Poll) }

  /** Once every stream has ended, as many polls as there are queued data report
      close, with everything that was admitted delivered. */
  lemma {:induction false} EndedDrains<V>(sys: Sys<V>, k: nat)
    requires Inv(sys) && AllEnded(sys.streams) && k >= Queued(sys.streams)
    ensures LegalRun(sys, Polls(k))
    ensures var end := Run(sys, Polls(k));
            && ReadinessOf(end.streams) == ReadyForClose && end.admitted == sys.admitted
            && |end.streams| == |end.admitted|
            && forall i :: 0 <= i < |end.streams| ==> end.admitted[i] == Delivered(end.batches, i)
    decreases k
  {
    hide ReadinessOf, Step, AllEnded, Delivered, Queued, Inv;
    if ReadinessOf(sys.streams) == ReadyForClose {
      PollsLegal(sys, k);
      CloseIsFinal(sys, Polls(k));
      RunKeeps(sys, Polls(k));
      CloseIsFinal(Run(sys, Polls(k)), []);
      InvSizes(Run(sys, Polls(k)));
    } else {
      PollDrains(sys);
      InvSizes(sys);
      StepKeeps(sys, Poll);
      assert Step(sys, Poll).admitted == sys.admitted by { PollAdmits(sys); }
      assert Polls<V>(k)[1..] == Polls<V>(k - 1);
      EndedDrains(Step(sys, Poll), k - 1);
    }
  }

  lemma InvSizes<V>(sys: Sys<V>)
    requires Inv(sys)
    ensures |sys.inputs| == |sys.admitted| == |sys.streams|
  {
  }

  lemma PollAdmits<V>(sys: Sys<V>)
    requires |sys.inputs| == |sys.admitted| == |sys.streams|
    ensures Step(sys, Poll).admitted == sys.admitted
  {
  }

  lemma {:induction false} PollsLegal<V>(sys: Sys<V>, k: nat)
    requires Inv(sys)
    ensures LegalRun(sys, Polls(k))
    decreases k
  {
    hide Inv, Step;
    if k > 0 {
      InvSizes(sys);
      StepKeeps(sys, Poll);
      assert Polls<V>(k)[1..] == Polls<V>(k - 1);
      PollsLegal(Step(sys, Poll), k - 1);
    }
  }

  function Closes<V>(j: nat, n: nat): seq<Event<V>>
    requires j <= n
  {
    seq(n - j, i requires 0 <= i < n - j => CloseStream(j + i))
  }

  /** Closing all streams ends them and touches no queue. */
  lemma {:induction false} ClosingEnds<V>(sys: Sys<V>, j: nat)
    requires Inv(sys) && j <= |sys.streams| && AllEnded(sys.streams[..j])
    ensures LegalRun(sys, Closes(j, |sys.streams|))
    ensures var end := Run(sys, Closes(j, |sys.streams|));
            && Inv(end) && AllEnded(end.streams) && |end.streams| == |sys.streams|
            && end.admitted == sys.admitted && end.batches == sys.batches
            && forall i :: 0 <= i < |end.streams| ==> end.streams[i].queue == sys.streams[i].queue
    decreases |sys.streams| - j
  {
    hide Inv;
    InvSizes(sys);
    var n, es := |sys.streams|, Closes<V>(j, |sys.streams|);
    if j < n {
      var next := Step(sys, CloseStream(j));
      StepKeeps(sys, CloseStream(j));
      assert es[1..] == Closes<V>(j + 1, n);
      assert next.streams[..j + 1] == sys.streams[..j] + [CloseOf(sys.streams[j])];
      assert CloseOf(sys.streams[j]).bound == CTIME_MAX by { ClosedIsEnded(sys, j); }
      ClosingEnds(next, j + 1);
    } else {
      assert sys.streams[..n] == sys.streams;
    }
  }

  lemma ClosedIsEnded<V>(sys: Sys<V>, j: nat)
    requires Inv(sys) && j < |sys.streams|
    ensures CloseOf(sys.streams[j]).bound == CTIME_MAX
  {
    hide Aligned, Delivered, Done;
    assert StreamOk(sys.streams[j]);
  }

  /** Progress: after any run, closing all streams and polling as often as there are
      queued data ends in close with everything delivered. */
  lemma CloseThenDrain<V>(sys: Sys<V>) returns (closed: Sys<V>, end: Sys<V>)
    requires Inv(sys)
    ensures LegalRun(sys, Closes(0, |sys.streams|)) && closed == Run(sys, Closes(0, |sys.streams|))
    ensures LegalRun(closed, Polls(Queued(sys.streams))) && end == Run(closed, Polls(Queued(sys.streams)))
    ensures ReadinessOf(end.streams) == ReadyForClose && end.admitted == sys.admitted
    ensures |end.streams| == |end.admitted|
    ensures forall i :: 0 <= i < |end.streams| ==> end.admitted[i] == Delivered(end.batches, i)
  {
    hide Inv, ReadinessOf, Delivered, Run, LegalRun, Queued;
    assert sys.streams[..0] == [];
    ClosingEnds(sys, 0);
    closed := Run(sys, Closes(0, |sys.streams|));
    QueuedLess(sys.streams, closed.streams, |sys.streams|);
    EndedDrains(closed, Queued(sys.streams));
    end := Run(closed, Polls(Queued(sys.streams)));
  }

  // ---------- the objects follow the state machine ----------

  /** Readiness, then SyncAt when a timestamp is complete, then PostProcess: the
      poll of the state machine, on the managers themselves. */
  method PollOnce<V>(syncSet: SyncSet<V>, inputs: seq<Input<V>>, ghost sys: Sys<V>) returns (out: seq<Input<V>>, r: Readiness)
    requires syncSet.Valid() && |inputs| == |syncSet.managers|
    requires Inv(sys) && sys.streams == syncSet.States() && sys.inputs == inputs
    modifies syncSet, syncSet.managers
    ensures r == ReadinessOf(sys.streams)
    ensures syncSet.States() == Step(sys, Poll).streams && out == Step(sys, Poll).inputs
  {
    hide ReadinessOf, AfterPop, Popped, Marshal, Done, StreamOk, NextOrBound, Delivered, Aligned;
    var reported;
    r, reported := syncSet.GetReadiness();
    out := inputs;
    if r.ReadyForProcess? {
      assert r.ts > CTIME_MIN by { StartsAtBegin(sys, r.ts); }
      var after := syncSet.SyncAt(r.ts, inputs);
      assert after == MarshalAll(sys.streams, inputs, r.ts);
      out := Cleared(after);
      assert syncSet.States() == PopAll(sys.streams, r.ts);
    }
  }

  lemma StartsAtBegin<V>(sys: Sys<V>, ts: int)
    requires Inv(sys) && ReadinessOf(sys.streams) == ReadyForProcess(ts)
    ensures ts > CTIME_MIN
  {
    hide Aligned, Delivered, Done;
    ProcessFacts(sys.streams, ts);
    var i :| 0 <= i < |sys.streams| && sys.streams[i].queue != [] && sys.streams[i].queue[0].ts == ts;
    assert StreamOk(sys.streams[i]);
  }
}
