/**
 dni/framework/input_stream_manager.cc and input_stream_handler.cc: input streams
 with a queue and a bound below which nothing more arrives, and the set that
 decides from all heads and bounds which timestamp is complete.
 */
module StreamSync {
  const CTIME_MIN: int := -0x8000_0000_0000_0000
  const CTIME_MAX: int := 0x7fff_ffff_ffff_ffff
  const TIMESTAMP_BEGIN: int := CTIME_MIN + 1
  const TIMESTAMP_END: int := CTIME_MAX - 1

  datatype Datum<V> = Nil(ts: int) | Item(value: V, ts: int)

  // ---------- one stream ----------

  datatype Stream<V> = Stream(queue: seq<Datum<V>>, bound: int, closed: bool)

  function AddTo<V>(s: Stream<V>, data: seq<Datum<V>>): Stream<V> {
    if data == [] then s
    else Stream(s.queue + data, data[|data| - 1].ts + 1, s.closed)
  }

  function RaiseTo<V>(s: Stream<V>, ts: int): Stream<V> {
    if s.closed || ts < s.bound then s else s.(bound := ts)
  }

  function CloseOf<V>(s: Stream<V>): Stream<V> {
    if s.closed then s else Stream(s.queue, CTIME_MAX, true)
  }

  function NextOrBound<V>(s: Stream<V>): int {
    if s.queue == [] then s.bound else s.queue[0].ts
  }

  predicate Done<V>(s: Stream<V>) { s.queue == [] && s.bound == CTIME_MAX }

  // How many leading data are not later than ts.
  function Taken<V>(q: seq<Datum<V>>, ts: int): (k: nat)
    ensures k <= |q|
  {
    if q == [] || q[0].ts > ts then 0 else 1 + Taken(q[1..], ts)
  }

  function AfterPop<V>(s: Stream<V>, ts: int): Stream<V> {
    Stream(s.queue[Taken(s.queue, ts)..], if s.bound <= ts then ts + 1 else s.bound, s.closed)
  }

  // The datum at exactly ts, or an empty one just before whatever comes next.
  function Popped<V>(s: Stream<V>, ts: int): Datum<V> {
    var k := Taken(s.queue, ts);
    if k > 0 && s.queue[k - 1].ts == ts then s.queue[k - 1] else Nil(NextOrBound(AfterPop(s, ts)) - 1)
  }

  // Datum::At: the same content with another timestamp.
  function At<V>(d: Datum<V>, ts: int): Datum<V> {
    match d
    case Nil(_) => Nil(ts)
    case Item(v, _) => Item(v, ts)
  }

  // What Sync hands over of one stream: everything queued, stamped just before the
  // head. On an ended stream the pop that empties the queue reports the end and its
  // datum is not handed over.
  function Drained<V>(s: Stream<V>): (r: seq<Datum<V>>)
    ensures |s.queue| - 1 <= |r|
    ensures |r| == |s.queue| <==> s.bound != CTIME_MAX || s.queue == []
    ensures forall i :: 0 <= i < |r| ==> i < |s.queue| && r[i] == At(s.queue[i], NextOrBound(s) - 1)
  {
    var n := if s.bound == CTIME_MAX && |s.queue| > 0 then |s.queue| - 1 else |s.queue|;
    seq(n, i requires 0 <= i < n => At(s.queue[i], NextOrBound(s) - 1))
  }

  function Emptied<V>(s: Stream<V>): Stream<V> { s.(queue := []) }

  // ---------- what the operations on one stream mean ----------

  /** What is handed over has the values that were queued, in order, all with the
      timestamp just before the head. */
  lemma DrainedKeepsValues<V>(s: Stream<V>, i: nat)
    requires i < |Drained(s)|
    ensures i < |s.queue| && Drained(s)[i].ts == s.queue[0].ts - 1
    ensures Drained(s)[i].Item? <==> s.queue[i].Item?
    ensures s.queue[i].Item? ==> Drained(s)[i].value == s.queue[i].value
  {
  }

  /** Added data that end before TIMESTAMP_END leave the stream open: a drain hands
      over all that was queued and all that was added. */
  lemma AddedIsDrained<V>(s: Stream<V>, data: seq<Datum<V>>)
    requires data != [] && data[|data| - 1].ts < TIMESTAMP_END
    ensures |Drained(AddTo(s, data))| == |s.queue| + |data|
    ensures forall i :: 0 <= i < |s.queue| && s.queue[i].Item? ==> Drained(AddTo(s, data))[i].Item? && Drained(AddTo(s, data))[i].value == s.queue[i].value
    ensures forall i :: 0 <= i < |data| && data[i].Item? ==>
              Drained(AddTo(s, data))[|s.queue| + i].Item? && Drained(AddTo(s, data))[|s.queue| + i].value == data[i].value
  {
  }

  // The data taken are exactly the leading ones that are not later than ts.
  lemma {:induction false} TakenIs<V>(q: seq<Datum<V>>, ts: int)
    ensures forall i :: 0 <= i < Taken(q, ts) ==> q[i].ts <= ts
    ensures Taken(q, ts) < |q| ==> q[Taken(q, ts)].ts > ts
  {
    if q != [] && q[0].ts <= ts {
      TakenIs(q[1..], ts);
      assert forall i :: 0 < i < Taken(q, ts) ==> q[i] == q[1..][i - 1];
    }
  }

  /** A pop at ts takes the leading data up to ts, moves the bound past ts and returns
      the last one taken if it is at ts, else an empty one just before what is next. */
  lemma PopMeans<V>(s: Stream<V>, ts: int, k: nat)
    requires k <= |s.queue| && (forall i :: 0 <= i < k ==> s.queue[i].ts <= ts)
    requires k < |s.queue| ==> s.queue[k].ts > ts
    ensures AfterPop(s, ts).queue == s.queue[k..] && AfterPop(s, ts).closed == s.closed
    ensures AfterPop(s, ts).bound > ts && AfterPop(s, ts).bound >= s.bound && AfterPop(s, ts).bound in {s.bound, ts + 1}
    ensures k > 0 && s.queue[k - 1].ts == ts ==> Popped(s, ts) == s.queue[k - 1]
    ensures k == 0 || s.queue[k - 1].ts != ts ==>
              Popped(s, ts) == Nil((if k < |s.queue| then s.queue[k].ts else AfterPop(s, ts).bound) - 1)
  {
    TakenIs(s.queue, ts);
    assert Taken(s.queue, ts) == k;
  }

  /** Raising keeps the queue; on an open stream the bound becomes the larger of the
      two, on a closed one it stays. Closing ends an open stream and keeps its queue. */
  lemma BoundsMove<V>(s: Stream<V>, ts: int)
    ensures RaiseTo(s, ts).queue == s.queue && RaiseTo(s, ts).closed == s.closed
    ensures RaiseTo(s, ts).bound == if !s.closed && s.bound < ts then ts else s.bound
    ensures CloseOf(s).queue == s.queue && CloseOf(s).closed && (!s.closed ==> CloseOf(s).bound == CTIME_MAX)
  {
  }

  class InputStreamManager<V> {
    var queue: seq<Datum<V>>
    var nextBound: int
    var closed: bool

    function State(): Stream<V>
      reads this
    {
      Stream(queue, nextBound, closed)
    }

    method PrepareForRun()
      modifies this
      ensures State() == Stream([], TIMESTAMP_BEGIN, old(closed))
    {
      queue := [];
      nextBound := TIMESTAMP_BEGIN;
    }

    // AddData and MoveData differ only in copying or moving the data.
    method AddData(data: seq<Datum<V>>)
      modifies this
      ensures State() == AddTo(old(State()), data)
      ensures queue == old(queue) + data && closed == old(closed)
      ensures nextBound == if data == [] then old(nextBound) else data[|data| - 1].ts + 1
    {
      for i := 0 to |data|
        invariant State() == AddTo(old(State()), data[..i])
      {
        assert data[..i + 1] == data[..i] + [data[i]];
        assert i > 0 ==> data[..i] != [];
        nextBound := data[i].ts + 1;
        queue := queue + [data[i]];
      }
      assert data[..|data|] == data;
    }

    method Close()
      modifies this
      ensures State() == CloseOf(old(State()))
      ensures closed && queue == old(queue)
      ensures nextBound == if old(closed) then old(nextBound) else CTIME_MAX
    {
      if closed {
        return;
      }
      nextBound := CTIME_MAX;
      closed := true;
    }

    method SetNextTimestampBound(ts: int)
      modifies this
      ensures State() == RaiseTo(old(State()), ts)
      ensures queue == old(queue) && closed == old(closed)
      ensures old(closed) ==> nextBound == old(nextBound)
      ensures !old(closed) ==> nextBound >= ts && nextBound >= old(nextBound) && nextBound in {ts, old(nextBound)}
    {
      if closed {
        return;
      }
      if ts < nextBound {
        return;
      }
      nextBound := ts;
    }

    method NextTimestampOrBound() returns (ts: int)
      ensures ts == NextOrBound(State())
    {
      ts := if queue == [] then nextBound else queue[0].ts;
    }

    // With nothing to pop, an empty datum, and the caller's end mark stays as it was.
    method Pop(mark: bool) returns (ret: Datum<V>, done: bool)
      modifies this
      ensures old(queue) == [] ==> ret.Nil? && done == mark && State() == old(State())
      ensures old(queue) != [] ==> ret == old(queue)[0] && State() == old(State()).(queue := old(queue)[1..])
      ensures old(queue) != [] ==> (done <==> Done(State()))
    {
      if queue == [] {
        return Nil(CTIME_MIN), mark;
      }
      ret := queue[0];
      queue := queue[1..];
      done := queue == [] && nextBound == CTIME_MAX;
    }

    method PopAt(ts: int) returns (ret: Datum<V>, dropped: nat, done: bool)
      requires ts > CTIME_MIN
      modifies this
      ensures State() == AfterPop(old(State()), ts)
      ensures ret == Popped(old(State()), ts)
      ensures dropped == Taken(old(queue), ts) + if Taken(old(queue), ts) > 0 && old(queue)[Taken(old(queue), ts) - 1].ts == ts then 0 else 1
      ensures done <==> Done(State())
    {
      if nextBound <= ts {
        nextBound := ts + 1;
      }
      var curr := CTIME_MIN;
      ret, dropped := Nil(0), 0;
      ghost var q := queue;
      ghost var k := 0;
      while queue != [] && queue[0].ts <= ts
        invariant dropped == k <= |q| && queue == q[k..] && Taken(q, ts) == k + Taken(queue, ts)
        invariant k == 0 ==> curr == CTIME_MIN
        invariant k > 0 ==> ret == q[k - 1] && curr == ret.ts
        invariant nextBound == AfterPop(old(State()), ts).bound && closed == old(closed)
        decreases |queue|
      {
        ret := queue[0];
        queue := queue[1..];
        curr := ret.ts;
        k := k + 1;
        dropped := dropped + 1;
      }
      if curr != ts {
        var bound := if queue == [] then nextBound else queue[0].ts;
        ret := Nil(bound - 1);
        dropped := dropped + 1;
      }
      done := queue == [] && nextBound == CTIME_MAX;
    }
  }

  // ---------- readiness of a set of streams ----------

  datatype Readiness = NotReady | ReadyForProcess(ts: int) | ReadyForClose

  function Min(a: int, b: int): int { if b < a then b else a }

  // The least bound of the empty streams and the least head of the others.
  function MinBound<V>(ss: seq<Stream<V>>): int {
    if ss == [] then CTIME_MAX
    else
      var s := ss[|ss| - 1];
      if s.queue == [] then Min(NextOrBound(s), MinBound(ss[..|ss| - 1])) else MinBound(ss[..|ss| - 1])
  }

  function MinDatum<V>(ss: seq<Stream<V>>): int {
    if ss == [] then CTIME_MAX
    else
      var s := ss[|ss| - 1];
      if s.queue == [] then MinDatum(ss[..|ss| - 1]) else Min(NextOrBound(s), MinDatum(ss[..|ss| - 1]))
  }

  function ReadinessOf<V>(ss: seq<Stream<V>>): Readiness {
    var ts := Min(MinBound(ss), MinDatum(ss));
    if ts >= TIMESTAMP_END then ReadyForClose
    else if MinBound(ss) > MinDatum(ss) then ReadyForProcess(ts)
    else NotReady
  }

  // An input of the task: what the set handed over, and whether its stream ended.
  datatype Input<V> = Input(queue: seq<Datum<V>>, done: bool)

  // InputStreamImpl::AddDatum
  function Marshal<V>(i: Input<V>, d: Datum<V>, done: bool): Input<V> {
    if i.done && d.Item? then i else Input(i.queue + [d], done)
  }

  /** An input that has ended refuses values; it takes everything else, and the mark
      that came with it. */
  lemma EndedRefuses<V>(i: Input<V>, d: Datum<V>, done: bool)
    ensures i.done && d.Item? ==> Marshal(i, d, done) == i
    ensures !i.done || d.Nil? ==> Marshal(i, d, done).queue == i.queue + [d] && Marshal(i, d, done).done == done
  {
  }

  // Data handed to an input one after the other.
  function Handed<V>(i: Input<V>, ds: seq<Datum<V>>): Input<V> {
    if ds == [] then i else Marshal(Handed(i, ds[..|ds| - 1]), ds[|ds| - 1], false)
  }

  // An input that has not ended takes all of them.
  lemma {:induction false} HandedOpen<V>(i: Input<V>, ds: seq<Datum<V>>)
    requires !i.done
    ensures Handed(i, ds) == Input(i.queue + ds, false)
  {
    if ds != [] {
      var n := |ds| - 1;
      HandedOpen(i, ds[..n]);
      assert i.queue + ds == i.queue + ds[..n] + [ds[n]];
    } else {
      assert i.queue + ds == i.queue;
    }
  }

  class SyncSet<V> {
    const managers: seq<InputStreamManager<V>>
    var lastProcessed: int

    constructor (managers: seq<InputStreamManager<V>>)
      ensures this.managers == managers && lastProcessed == 0
    {
      this.managers := managers;
      lastProcessed := 0;
    }

    predicate Valid() { forall i, j :: 0 <= i < j < |managers| ==> managers[i] != managers[j] }

    function States(): (ss: seq<Stream<V>>)
      reads managers
      ensures |ss| == |managers| && forall i :: 0 <= i < |managers| ==> ss[i] == managers[i].State()
    {
      seq(|managers|, i requires 0 <= i < |managers| reads managers => managers[i].State())
    }

    // Also the timestamp reported to the caller.
    method GetReadiness() returns (r: Readiness, reported: int)
      requires Valid()
      modifies this
      ensures r == ReadinessOf(States()) && States() == old(States())
      ensures reported == if r.ReadyForClose? then CTIME_MAX else Min(MinBound(States()), MinDatum(States()))
      ensures lastProcessed == match r
                               case ReadyForProcess(ts) => ts
                               case ReadyForClose => TIMESTAMP_END
                               case NotReady => old(lastProcessed)
    {
      var minBound, minDatum := CTIME_MAX, CTIME_MAX;
      for id := 0 to |managers|
        invariant States() == old(States())
        invariant lastProcessed == old(lastProcessed)
        invariant minBound == MinBound(States()[..id]) && minDatum == MinDatum(States()[..id])
      {
        var manager := managers[id];
        assert States()[..id + 1] == States()[..id] + [manager.State()];
        var curr := manager.NextTimestampOrBound();
        if manager.queue == [] {
          minBound := Min(curr, minBound);
        } else {
          minDatum := Min(curr, minDatum);
        }
      }
      assert States()[..|managers|] == States();
      var ts := Min(minBound, minDatum);
      if ts >= TIMESTAMP_END {
        lastProcessed := TIMESTAMP_END;
        return ReadyForClose, CTIME_MAX;
      }
      if minBound > minDatum {
        lastProcessed := ts;
        return ReadyForProcess(ts), ts;
      }
      return NotReady, ts;
    }

    method SyncAt(ts: int, inputs: seq<Input<V>>) returns (out: seq<Input<V>>)
      requires Valid() && ts > CTIME_MIN && |inputs| == |managers|
      modifies managers
      ensures |out| == |inputs| && |States()| == |inputs|
      ensures forall i :: 0 <= i < |out| ==> States()[i] == AfterPop(old(States())[i], ts)
      ensures forall i :: 0 <= i < |out| ==>
                out[i] == Marshal(inputs[i], Popped(old(States())[i], ts), Done(AfterPop(old(States())[i], ts)))
    {
      hide AfterPop, Popped, Marshal;
      out := inputs;
      for i := 0 to |inputs|
        invariant |out| == |inputs|
        invariant forall k :: 0 <= k < i ==> managers[k].State() == AfterPop(old(States())[k], ts)
        invariant forall k :: i <= k < |managers| ==> managers[k].State() == old(States())[k]
        invariant forall k :: 0 <= k < i ==>
                    out[k] == Marshal(inputs[k], Popped(old(States())[k], ts), Done(AfterPop(old(States())[k], ts)))
        invariant forall k :: i <= k < |out| ==> out[k] == inputs[k]
      {
        var d, _, done := managers[i].PopAt(ts);
        out := out[i := Marshal(out[i], d, done)];
      }
    }

    /** Drains every stream into its input, as `Drained` says. */
    method Sync(inputs: seq<Input<V>>) returns (out: seq<Input<V>>)
      requires Valid() && |inputs| == |managers|
      modifies managers
      ensures |out| == |inputs| && |States()| == |inputs|
      ensures forall i :: 0 <= i < |out| ==> States()[i] == Emptied(old(States())[i])
      ensures forall i :: 0 <= i < |out| ==> out[i] == Handed(inputs[i], Drained(old(States())[i]))
    {
      hide Drained, Handed;
      out := inputs;
      for i := 0 to |inputs|
        invariant |out| == |inputs|
        invariant forall k :: 0 <= k < i ==> managers[k].State() == Emptied(old(States())[k])
        invariant forall k :: i <= k < |managers| ==> managers[k].State() == old(States())[k]
        invariant forall k :: 0 <= k < i ==> out[k] == Handed(inputs[k], Drained(old(States())[k]))
        invariant forall k :: i <= k < |out| ==> out[k] == inputs[k]
      {
        var input := SyncOne(managers[i], out[i]);
        out := out[i := input];
      }
    }
  }

  // One stream of Sync.
  method SyncOne<V>(manager: InputStreamManager<V>, input: Input<V>) returns (out: Input<V>)
    modifies manager
    ensures manager.State() == Emptied(old(manager.State()))
    ensures manager.queue == [] && manager.nextBound == old(manager.nextBound) && manager.closed == old(manager.closed)
    ensures out == Handed(input, Drained(old(manager.State())))
    ensures !input.done ==> out.queue == input.queue + Drained(old(manager.State()))
    ensures !input.done ==> |out.queue| == |input.queue| + |old(manager.queue)|
                            - if old(manager.nextBound) == CTIME_MAX && old(manager.queue) != [] then 1 else 0
  {
    ghost var s := manager.State();
    var ts := manager.NextTimestampOrBound();
    var done := false;
    out := input;
    ghost var k := 0;
    while manager.queue != []
      invariant k <= |s.queue| && manager.State() == s.(queue := s.queue[k..])
      invariant k < |s.queue| || s.bound != CTIME_MAX || k == 0
      invariant k <= |Drained(s)| && out == Handed(input, Drained(s)[..k])
      decreases |manager.queue|
    {
      var d;
      d, done := manager.Pop(done);
      if done {
        assert k == |Drained(s)|;
        break;
      }
      assert Drained(s)[..k + 1] == Drained(s)[..k] + [At(d, ts - 1)];
      out := Marshal(out, At(d, ts - 1), done);
      k := k + 1;
    }
    assert Drained(s)[..|Drained(s)|] == Drained(s);
    if !input.done {
      HandedOpen(input, Drained(s));
    }
  }

  /** A datum queued on a stream that is then closed is taken off the queue and never
      reaches the input. */
  lemma ClosedStreamLoses<V>(d: Datum<V>, input: Input<V>)
    ensures var s := CloseOf(AddTo(Stream([], TIMESTAMP_BEGIN, false), [d]));
            s.queue == [d] && Drained(s) == [] && Handed(input, Drained(s)) == input && Done(Emptied(s))
  {
  }
}
