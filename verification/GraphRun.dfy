/**
 One run of a graph: dni/framework/node.cc Process, output_stream_handler.cc
 Propagate and graph.cc PrepareForRun. A slot is the queue of one node input or of
 one observed graph output. A node drains its own slots, runs its task, an
 arbitrary function of the task's state and of what was drained, and pushes each
 output to the slots that mirror it.
 */
module GraphRun {
  import opened Counting
  import opened StreamSync

  type Task<!S, !V> = (S, seq<seq<Datum<V>>>) -> (S, seq<seq<Datum<V>>>)

  /** The wiring: for each slot the node that reads it (-1 for an observed output)
      and the output stream that feeds it (-1 for none); for each output stream the
      node it belongs to (-1 for a graph input); for each node its first output. */
  datatype Net = Net(reader: seq<int>, feed: seq<int>, owner: seq<int>, outBase: seq<nat>)

  predicate NetOk(net: Net, n: nat) {
    && |net.feed| == |net.reader| && |net.outBase| == n
    && (forall j :: 0 <= j < |net.reader| ==> -1 <= net.reader[j] < n)
    && (forall j :: 0 <= j < |net.feed| ==> -1 <= net.feed[j] < |net.owner|)
    && (forall o :: 0 <= o < |net.owner| ==> -1 <= net.owner[o] < n)
    && (forall o :: 0 <= o < |net.owner| && net.owner[o] >= 0 ==> net.outBase[net.owner[o]] <= o)
  }

  // The node that feeds a slot, or -1.
  function FeederOf(net: Net, j: nat): int
    requires j < |net.feed| && (net.feed[j] < |net.owner|)
  {
    if net.feed[j] < 0 then -1 else net.owner[net.feed[j]]
  }

  datatype State<S, V> = State(slots: seq<Stream<V>>, tasks: seq<S>)

  predicate StateOk<S, V>(net: Net, st: State<S, V>) {
    NetOk(net, |st.tasks|) && |st.slots| == |net.reader|
  }

  // What node v drains: the queues of its slots, in order.
  function InputsOf<V>(net: Net, slots: seq<Stream<V>>, v: nat): seq<seq<Datum<V>>>
    requires |slots| == |net.reader|
    decreases |slots|
  {
    if slots == [] then []
    else
      var k := |slots| - 1;
      InputsOf(net.(reader := net.reader[..k]), slots[..k], v) + if net.reader[k] == v then [Drained(slots[k])] else []
  }

  function OutputAt<V>(outs: seq<seq<Datum<V>>>, k: int): seq<Datum<V>> { if 0 <= k < |outs| then outs[k] else [] }

  lemma AddedOutput<V>(s: Stream<V>, outs: seq<seq<Datum<V>>>, k: nat)
    requires k < |outs|
    ensures AddTo(s, OutputAt(outs, k)).queue == s.queue + outs[k]
  {
  }

  // Slot j after node v has run with outputs outs.
  function SlotAfter<V>(net: Net, s: Stream<V>, j: nat, v: nat, outs: seq<seq<Datum<V>>>): Stream<V>
    requires j < |net.reader| && |net.feed| == |net.reader| && -1 <= net.feed[j] < |net.owner| && v < |net.outBase|
  {
    var t := if net.reader[j] == v then Emptied(s) else s;
    if FeederOf(net, j) == v then AddTo(t, OutputAt(outs, net.feed[j] - net.outBase[v])) else t
  }

  function Step<S, V>(net: Net, tasks: seq<Task<S, V>>, st: State<S, V>, v: nat): (r: State<S, V>)
    requires StateOk(net, st) && |tasks| == |st.tasks| && v < |tasks|
    ensures StateOk(net, r) && |r.tasks| == |st.tasks|
  {
    var (s, outs) := tasks[v](st.tasks[v], InputsOf(net, st.slots, v));
    State(seq(|st.slots|, j requires 0 <= j < |st.slots| => SlotAfter(net, st.slots[j], j, v, outs)),
          st.tasks[v := s])
  }

  function RunOrder<S, V>(net: Net, tasks: seq<Task<S, V>>, st: State<S, V>, order: seq<nat>): (r: State<S, V>)
    requires StateOk(net, st) && |tasks| == |st.tasks|
    requires forall i :: 0 <= i < |order| ==> order[i] < |tasks|
    ensures StateOk(net, r) && |r.tasks| == |st.tasks|
    decreases |order|
  {
    if order == [] then st else RunOrder(net, tasks, Step(net, tasks, st, order[0]), order[1..])
  }

  // ---------- what a step means ----------

  /** The i-th input of v is the queue of the i-th slot that v reads. */
  lemma {:induction false} InputAt<V>(net: Net, slots: seq<Stream<V>>, v: nat, j: nat)
    requires |slots| == |net.reader|
    ensures |InputsOf(net, slots, v)| == multiset(net.reader)[v]
    ensures j < |slots| && net.reader[j] == v ==>
              multiset(net.reader[..j])[v] < |InputsOf(net, slots, v)|
              && InputsOf(net, slots, v)[multiset(net.reader[..j])[v]] == Drained(slots[j])
    decreases |slots|
  {
    hide Drained;
    if slots != [] {
      var k := |slots| - 1;
      var init := net.(reader := net.reader[..k]);
      InputAt(init, slots[..k], v, j);
      assert net.reader == net.reader[..k] + [net.reader[k]];
      assert j < k ==> net.reader[..k][..j] == net.reader[..j];
    }
  }

  // Slot j hangs on output k of node v.
  predicate Takes(net: Net, j: nat, v: nat, k: int)
    requires j < |net.feed| && net.feed[j] < |net.owner| && v < |net.outBase|
  {
    net.feed[j] >= 0 && net.owner[net.feed[j]] == v && net.feed[j] == net.outBase[v] + k
  }

  /** After v has run, its task has its new state, and each slot holds what it held,
      or nothing if v reads it, followed by the output of v that it hangs on. */
  lemma StepMeans<S, V>(net: Net, tasks: seq<Task<S, V>>, st: State<S, V>, v: nat)
    requires StateOk(net, st) && |tasks| == |st.tasks| && v < |tasks|
    ensures var (s, outs) := tasks[v](st.tasks[v], InputsOf(net, st.slots, v));
            var after := Step(net, tasks, st, v);
            && after.tasks == st.tasks[v := s]
            && forall j :: 0 <= j < |net.reader| ==>
                 var kept := if net.reader[j] == v then [] else st.slots[j].queue;
                 && (forall k :: 0 <= k < |outs| && Takes(net, j, v, k) ==> after.slots[j].queue == kept + outs[k])
                 && ((forall k :: 0 <= k < |outs| ==> !Takes(net, j, v, k)) ==>
                       after.slots[j].queue == kept && after.slots[j].bound == st.slots[j].bound)
                 && after.slots[j].closed == st.slots[j].closed
  {
    var (s, outs) := tasks[v](st.tasks[v], InputsOf(net, st.slots, v));
    var after := Step(net, tasks, st, v);
    forall j | 0 <= j < |net.reader|
      ensures var kept := if net.reader[j] == v then [] else st.slots[j].queue;
              && (forall k :: 0 <= k < |outs| && Takes(net, j, v, k) ==> after.slots[j].queue == kept + outs[k])
              && ((forall k :: 0 <= k < |outs| ==> !Takes(net, j, v, k)) ==>
                    after.slots[j].queue == kept && after.slots[j].bound == st.slots[j].bound)
    {
      SlotMeans(net, st.slots[j], j, v, outs);
    }
  }

  lemma SlotMeans<V>(net: Net, s: Stream<V>, j: nat, v: nat, outs: seq<seq<Datum<V>>>)
    requires j < |net.reader| && NetOk(net, |net.outBase|) && v < |net.outBase|
    ensures var kept := if net.reader[j] == v then [] else s.queue;
            var t := SlotAfter(net, s, j, v, outs);
            && (forall k :: 0 <= k < |outs| && Takes(net, j, v, k) ==> t.queue == kept + outs[k])
            && ((forall k :: 0 <= k < |outs| ==> !Takes(net, j, v, k)) ==> t.queue == kept && t.bound == s.bound)
            && t.closed == s.closed
  {
    if FeederOf(net, j) == v {
      assert Takes(net, j, v, net.feed[j] - net.outBase[v]);
    }
  }

  // An order runs its nodes from left to right.
  lemma {:induction false} RunConcat<S, V>(net: Net, tasks: seq<Task<S, V>>, st: State<S, V>, a: seq<nat>, b: seq<nat>)
    requires StateOk(net, st) && |tasks| == |st.tasks| && Nodes(a, |tasks|) && Nodes(b, |tasks|)
    ensures RunOrder(net, tasks, st, a + b) == RunOrder(net, tasks, RunOrder(net, tasks, st, a), b)
    ensures a != [] ==> RunOrder(net, tasks, st, a[..1]) == Step(net, tasks, st, a[0])
    decreases |a|
  {
    hide Step;
    if a == [] {
      assert a + b == b;
    } else {
      assert (a + b)[1..] == a[1..] + b && a[..1][1..] == [];
      RunConcat(net, tasks, Step(net, tasks, st, a[0]), a[1..], b);
    }
  }

  // ---------- independent nodes commute ----------

  ghost predicate Feeds(net: Net, u: nat, v: nat)
    requires |net.feed| == |net.reader| && forall j :: 0 <= j < |net.feed| ==> net.feed[j] < |net.owner|
  {
    exists j :: 0 <= j < |net.reader| && net.reader[j] == v && FeederOf(net, j) == u
  }

  // The inputs of v depend only on the slots of v.
  lemma {:induction false} InputsSame<V>(net: Net, a: seq<Stream<V>>, b: seq<Stream<V>>, v: nat)
    requires |a| == |b| == |net.reader|
    requires forall j :: 0 <= j < |a| && net.reader[j] == v ==> a[j] == b[j]
    ensures InputsOf(net, a, v) == InputsOf(net, b, v)
    decreases |a|
  {
    hide Drained;
    if a != [] {
      var k := |a| - 1;
      InputsSame(net.(reader := net.reader[..k]), a[..k], b[..k], v);
    }
  }

  // A node that does not feed v leaves the inputs of v alone.
  lemma InputsKept<S, V>(net: Net, tasks: seq<Task<S, V>>, st: State<S, V>, u: nat, v: nat)
    requires StateOk(net, st) && |tasks| == |st.tasks| && u < |tasks| && v < |tasks| && u != v && !Feeds(net, u, v)
    ensures InputsOf(net, Step(net, tasks, st, u).slots, v) == InputsOf(net, st.slots, v)
  {
    var after := Step(net, tasks, st, u).slots;
    forall j | 0 <= j < |after| && net.reader[j] == v ensures after[j] == st.slots[j] {
    }
    InputsSame(net, after, st.slots, v);
  }

  lemma Commute<S, V>(net: Net, tasks: seq<Task<S, V>>, st: State<S, V>, u: nat, v: nat)
    requires StateOk(net, st) && |tasks| == |st.tasks| && u < |tasks| && v < |tasks| && u != v
    requires !Feeds(net, u, v) && !Feeds(net, v, u)
    ensures Step(net, tasks, Step(net, tasks, st, u), v) == Step(net, tasks, Step(net, tasks, st, v), u)
  {
    InputsKept(net, tasks, st, u, v);
    InputsKept(net, tasks, st, v, u);
    var a := Step(net, tasks, Step(net, tasks, st, u), v);
    var b := Step(net, tasks, Step(net, tasks, st, v), u);
    assert a.tasks == b.tasks;
    forall j | 0 <= j < |a.slots| ensures a.slots[j] == b.slots[j] {
    }
    assert a.slots == b.slots;
  }

  // ---------- any order that respects the edges ----------

  predicate Nodes(order: seq<nat>, n: nat) { forall i :: 0 <= i < |order| ==> order[i] < n }

  // No node comes before one that feeds it.
  ghost predicate Respects(net: Net, order: seq<nat>)
    requires |net.feed| == |net.reader| && forall j :: 0 <= j < |net.feed| ==> net.feed[j] < |net.owner|
  {
    forall i, j :: 0 <= i < j < |order| ==> !Feeds(net, order[j], order[i])
  }

  // A node independent of all that come before it may run first.
  lemma {:induction false} RunFirst<S, V>(net: Net, tasks: seq<Task<S, V>>, st: State<S, V>,
                                          before: seq<nat>, x: nat, rest: seq<nat>)
    requires StateOk(net, st) && |tasks| == |st.tasks| && x < |tasks|
    requires Nodes(before, |tasks|) && Nodes(rest, |tasks|)
    requires forall i :: 0 <= i < |before| ==>
               before[i] != x && !Feeds(net, x, before[i]) && !Feeds(net, before[i], x)
    ensures RunOrder(net, tasks, st, before + [x] + rest) == RunOrder(net, tasks, Step(net, tasks, st, x), before + rest)
    decreases |before|
  {
    hide Step, Feeds;
    if before == [] {
      assert before + [x] + rest == [x] + rest && before + rest == rest;
      assert ([x] + rest)[1..] == rest;
    } else {
      var p, more := before[0], before[1..];
      var a, b := before + [x] + rest, before + rest;
      assert a[0] == p && a[1..] == more + [x] + rest;
      assert b[0] == p && b[1..] == more + rest;
      RunFirst(net, tasks, Step(net, tasks, st, p), more, x, rest);
      Commute(net, tasks, st, p, x);
    }
  }

  lemma TakeOut(a: seq<nat>, i: nat)
    requires Distinct(a) && i < |a|
    ensures Distinct(a[..i] + a[i + 1..]) && Elements(a[..i] + a[i + 1..]) == Elements(a) - {a[i]}
  {
  }

  // u comes before v.
  ghost predicate Precedes(order: seq<nat>, u: int, v: int) {
    exists i, j :: 0 <= i < j < |order| && order[i] == u && order[j] == v
  }

  // Where a node stands decides what it precedes.
  lemma PrecedesAt(order: seq<nat>, i: nat, j: nat)
    requires Distinct(order) && i < |order| && j < |order|
    ensures Precedes(order, order[i], order[j]) <==> i < j
  {
  }

  // Only the nodes of an order precede one another.
  lemma PrecedesIn(order: seq<nat>, u: int, v: int) returns (i: nat, j: nat)
    requires Precedes(order, u, v)
    ensures i < j < |order| && order[i] == u && order[j] == v
  {
    i, j :| 0 <= i < j < |order| && order[i] == u && order[j] == v;
  }

  // Each pair of a node and its feeder stands the same way around in both orders.
  ghost predicate SameSides(net: Net, a: seq<nat>, b: seq<nat>)
    requires |net.feed| == |net.reader| && forall j :: 0 <= j < |net.feed| ==> net.feed[j] < |net.owner|
  {
    forall u: nat, v: nat :: u != v && Feeds(net, u, v) ==> (Precedes(a, u, v) <==> Precedes(b, u, v))
  }

  // The first node of one order and the nodes before it in the other.
  lemma FirstIsIndependent(net: Net, a: seq<nat>, b: seq<nat>, i: nat)
    requires |net.feed| == |net.reader| && forall j :: 0 <= j < |net.feed| ==> net.feed[j] < |net.owner|
    requires Distinct(a) && Distinct(b) && Elements(a) == Elements(b) && SameSides(net, a, b)
    requires i < |a| && |b| > 0 && a[i] == b[0]
    ensures forall k :: 0 <= k < i ==>
              a[k] != b[0] && !Feeds(net, b[0], a[k]) && !Feeds(net, a[k], b[0])
  {
    hide Feeds, Precedes;
    forall k | 0 <= k < i ensures a[k] != b[0] && !Feeds(net, b[0], a[k]) && !Feeds(net, a[k], b[0]) {
      assert a[k] in Elements(b);
      var m :| 0 <= m < |b| && b[m] == a[k];
      PrecedesAt(a, k, i);
      PrecedesAt(a, i, k);
      PrecedesAt(b, 0, m);
      PrecedesAt(b, m, 0);
    }
  }

  lemma PrecedesRest(a: seq<nat>, i: nat, u: nat, v: nat)
    requires Distinct(a) && i < |a|
    ensures Precedes(a[..i] + a[i + 1..], u, v) <==> Precedes(a, u, v) && u != a[i] && v != a[i]
  {
    var c := a[..i] + a[i + 1..];
    assert forall k :: 0 <= k < |c| ==> c[k] == a[if k < i then k else k + 1];
    if Precedes(a, u, v) && u != a[i] && v != a[i] {
      var k, l := PrecedesIn(a, u, v);
      assert c[if k < i then k else k - 1] == u && c[if l < i then l else l - 1] == v;
    }
    if Precedes(c, u, v) {
      var k, l := PrecedesIn(c, u, v);
      assert a[if k < i then k else k + 1] == u && a[if l < i then l else l + 1] == v;
    }
  }

  lemma SidesRest(net: Net, a: seq<nat>, b: seq<nat>, i: nat)
    requires |net.feed| == |net.reader| && forall j :: 0 <= j < |net.feed| ==> net.feed[j] < |net.owner|
    requires Distinct(a) && Distinct(b) && SameSides(net, a, b) && i < |a| && |b| > 0 && a[i] == b[0]
    ensures SameSides(net, a[..i] + a[i + 1..], b[1..])
    ensures forall n: nat :: Nodes(a, n) ==> Nodes(a[..i] + a[i + 1..], n)
  {
    hide Feeds, Precedes;
    var c := a[..i] + a[i + 1..];
    assert forall k :: 0 <= k < |c| ==> c[k] == a[if k < i then k else k + 1];
    assert b[..0] + b[1..] == b[1..];
    forall u: nat, v: nat | u != v && Feeds(net, u, v) ensures Precedes(c, u, v) <==> Precedes(b[1..], u, v) {
      PrecedesRest(a, i, u, v);
      PrecedesRest(b, 0, u, v);
    }
  }

  /** Two orders of the same nodes in which every node stands on the same side of its
      feeders leave the same queues, task states and observed outputs. */
  lemma {:induction false} OrderDoesNotMatter<S, V>(net: Net, tasks: seq<Task<S, V>>, st: State<S, V>,
                                                    a: seq<nat>, b: seq<nat>)
    requires StateOk(net, st) && |tasks| == |st.tasks| && Nodes(a, |tasks|) && Nodes(b, |tasks|)
    requires Distinct(a) && Distinct(b) && Elements(a) == Elements(b) && SameSides(net, a, b)
    ensures RunOrder(net, tasks, st, a) == RunOrder(net, tasks, st, b)
    decreases |b|
  {
    hide Step, Feeds, SameSides;
    if b == [] {
      assert a == [] by { NoElements(a); }
    } else {
      var x := b[0];
      assert x in Elements(b);
      var i :| 0 <= i < |a| && a[i] == x;
      var before, rest := a[..i], a[i + 1..];
      assert a == before + [x] + rest;
      FirstIsIndependent(net, a, b, i);
      RunFirst(net, tasks, st, before, x, rest);
      TakeOut(a, i);
      TakeOut(b, 0);
      assert b[..0] + b[1..] == b[1..];
      SidesRest(net, a, b, i);
      OrderDoesNotMatter(net, tasks, Step(net, tasks, st, x), before + rest, b[1..]);
    }
  }

  lemma NoElements(a: seq<nat>)
    ensures Elements(a) == {} ==> a == []
  {
    assert a != [] ==> a[0] in Elements(a);
  }

  // Orders that put feeders first agree on every pair.
  lemma RespectsSameSides(net: Net, a: seq<nat>, b: seq<nat>)
    requires |net.feed| == |net.reader| && forall j :: 0 <= j < |net.feed| ==> net.feed[j] < |net.owner|
    requires Distinct(a) && Distinct(b) && Elements(a) == Elements(b) && Respects(net, a) && Respects(net, b)
    ensures SameSides(net, a, b)
  {
    hide Feeds, Precedes;
    forall u: nat, v: nat | u != v && Feeds(net, u, v) ensures Precedes(a, u, v) <==> Precedes(b, u, v) {
      FeederFirst(net, a, b, u, v);
      FeederFirst(net, b, a, u, v);
    }
  }

  lemma FeederFirst(net: Net, a: seq<nat>, b: seq<nat>, u: nat, v: nat)
    requires |net.feed| == |net.reader| && forall j :: 0 <= j < |net.feed| ==> net.feed[j] < |net.owner|
    requires Distinct(b) && Elements(a) == Elements(b) && Respects(net, b) && u != v && Feeds(net, u, v)
    ensures Precedes(a, u, v) ==> Precedes(b, u, v)
  {
    hide Feeds;
    if Precedes(a, u, v) {
      var i, j := PrecedesIn(a, u, v);
      assert u in Elements(b) && v in Elements(b);
      var k :| 0 <= k < |b| && b[k] == u;
      var l :| 0 <= l < |b| && b[l] == v;
      assert !(l < k);
    }
  }

  // ---------- and no other two orders ----------

  // Node u sends one datum on its output k; nobody else sends anything.
  function Sender<S(!new), V(!new)>(n: nat, u: nat, k: nat): seq<Task<S, V>> {
    seq(n, w => (s: S, ins: seq<seq<Datum<V>>>) => (s, if w == u then seq(k + 1, _ => [Nil(0)]) else []))
  }

  // How much is queued between u and v when only u sends.
  function Pending(q: nat, order: seq<nat>, u: nat, v: nat): nat
    decreases |order|
  {
    if order == [] then q
    else Pending(if order[0] == u then q + 1 else if order[0] == v then 0 else q, order[1..], u, v)
  }

  // What is queued once one of them is done.
  lemma {:induction false} PendingAway(q: nat, order: seq<nat>, u: nat, v: nat)
    requires Distinct(order) && u != v
    ensures u !in order ==> Pending(q, order, u, v) == if v in order then 0 else q
    ensures v !in order && u in order ==> Pending(q, order, u, v) == q + 1
    decreases |order|
  {
    if order != [] {
      var x, rest := order[0], order[1..];
      assert order == [x] + rest && x !in rest;
      PendingAway(if x == u then q + 1 else if x == v then 0 else q, rest, u, v);
    }
  }

  lemma {:induction false} PendingCleared(q: nat, order: seq<nat>, u: nat, v: nat)
    requires Distinct(order) && u != v && Precedes(order, u, v)
    ensures Pending(q, order, u, v) == 0
    decreases |order|
  {
    hide Precedes;
    PrecedesHead(order, u, v);
    if order[0] == u {
      PendingAway(q + 1, order[1..], u, v);
    } else {
      PendingCleared(q, order[1..], u, v);
    }
  }

  lemma {:induction false} PendingLeft(q: nat, order: seq<nat>, u: nat, v: nat)
    requires Distinct(order) && u != v && Precedes(order, v, u)
    ensures Pending(q, order, u, v) == 1
    decreases |order|
  {
    hide Precedes;
    PrecedesHead(order, v, u);
    if order[0] == v {
      PendingAway(0, order[1..], u, v);
    } else {
      PendingLeft(q, order[1..], u, v);
    }
  }

  lemma PrecedesHead(order: seq<nat>, u: nat, v: nat)
    requires Distinct(order) && u != v && Precedes(order, u, v)
    ensures order != [] && order[0] != v && Distinct(order[1..])
    ensures order[0] == u ==> u !in order[1..] && v in order[1..]
    ensures order[0] != u ==> Precedes(order[1..], u, v)
  {
    var i, j := PrecedesIn(order, u, v);
    assert order[1..][j - 1] == v;
    assert i > 0 ==> order[1..][i - 1] == u;
  }

  // The queue between u and v along a run.
  lemma {:induction false} PendingQueue<S(!new), V(!new)>(net: Net, n: nat, st: State<S, V>, order: seq<nat>, u: nat, v: nat, j: nat)
    requires StateOk(net, st) && |st.tasks| == n && Nodes(order, n) && u < n && u != v
    requires j < |net.reader| && net.reader[j] == v && FeederOf(net, j) == u
    ensures var tasks := Sender<S, V>(n, u, net.feed[j] - net.outBase[u]);
            |RunOrder(net, tasks, st, order).slots[j].queue| == Pending(|st.slots[j].queue|, order, u, v)
    decreases |order|
  {
    if order != [] {
      var tasks := Sender<S, V>(n, u, net.feed[j] - net.outBase[u]);
      var next := Step(net, tasks, st, order[0]);
      SentOne(net, n, st, order[0], u, v, j);
      PendingQueue(net, n, next, order[1..], u, v, j);
    }
  }

  lemma SentOne<S(!new), V(!new)>(net: Net, n: nat, st: State<S, V>, w: nat, u: nat, v: nat, j: nat)
    requires StateOk(net, st) && |st.tasks| == n && w < n && u < n && u != v
    requires j < |net.reader| && net.reader[j] == v && FeederOf(net, j) == u
    ensures var q := |st.slots[j].queue|;
            |Step(net, Sender<S, V>(n, u, net.feed[j] - net.outBase[u]), st, w).slots[j].queue|
              == if w == u then q + 1 else if w == v then 0 else q
  {
  }

  /** Orders in which a node and its feeder stand on opposite sides give different
      results for some tasks and some state. With OrderDoesNotMatter: two orders
      always agree exactly when they have the same sides. */
  lemma OppositeSidesDiffer<S(!new), V(!new)>(net: Net, n: nat, a: seq<nat>, b: seq<nat>, u: nat, v: nat, s: S)
    returns (tasks: seq<Task<S, V>>, st: State<S, V>)
    requires NetOk(net, n) && Distinct(a) && Distinct(b) && Nodes(a, n) && Nodes(b, n)
    requires u != v && Feeds(net, u, v) && Precedes(a, u, v) && Precedes(b, v, u)
    ensures StateOk(net, st) && |tasks| == |st.tasks| == n
    ensures RunOrder(net, tasks, st, a) != RunOrder(net, tasks, st, b)
  {
    hide RunOrder, Precedes;
    var j :| 0 <= j < |net.reader| && net.reader[j] == v && FeederOf(net, j) == u;
    tasks := Sender(n, u, net.feed[j] - net.outBase[u]);
    st := State(seq(|net.reader|, _ => Stream([], TIMESTAMP_BEGIN, false)), seq(n, _ => s));
    PendingQueue(net, n, st, a, u, v, j);
    PendingQueue(net, n, st, b, u, v, j);
    PendingCleared(0, a, u, v);
    PendingLeft(0, b, u, v);
  }

  /** Two orders of the same nodes give one result for all tasks and states exactly
      when every node stands on the same side of its feeders in both. */
  lemma AgreeExactly<S(!new), V(!new)>(net: Net, n: nat, a: seq<nat>, b: seq<nat>, s: S)
    requires NetOk(net, n) && Distinct(a) && Distinct(b) && Nodes(a, n) && Nodes(b, n) && Elements(a) == Elements(b)
    ensures SameSides(net, a, b) <==>
            forall tasks: seq<Task<S, V>>, st: State<S, V> ::
              StateOk(net, st) && |tasks| == |st.tasks| == n ==> RunOrder(net, tasks, st, a) == RunOrder(net, tasks, st, b)
  {
    hide RunOrder, Precedes, Feeds;
    if SameSides(net, a, b) {
      forall tasks: seq<Task<S, V>>, st: State<S, V> | StateOk(net, st) && |tasks| == |st.tasks| == n
        ensures RunOrder(net, tasks, st, a) == RunOrder(net, tasks, st, b)
      {
        OrderDoesNotMatter(net, tasks, st, a, b);
      }
    } else {
      var u: nat, v: nat :| u != v && Feeds(net, u, v) && Precedes(a, u, v) != Precedes(b, u, v);
      TurnedAround(a, b, u, v);
      TurnedAround(b, a, u, v);
      var tasks: seq<Task<S, V>>, st: State<S, V>;
      if Precedes(a, u, v) {
        tasks, st := OppositeSidesDiffer(net, n, a, b, u, v, s);
      } else {
        tasks, st := OppositeSidesDiffer(net, n, b, a, u, v, s);
      }
    }
  }

  // In an order of the same nodes one of the two comes first.
  lemma TurnedAround(a: seq<nat>, b: seq<nat>, u: nat, v: nat)
    requires Elements(a) == Elements(b) && u != v
    ensures Precedes(a, u, v) ==> Precedes(b, u, v) || Precedes(b, v, u)
  {
    if Precedes(a, u, v) {
      assert u in Elements(b) && v in Elements(b);
      var k :| 0 <= k < |b| && b[k] == u;
      var l :| 0 <= l < |b| && b[l] == v;
      assert k < l || l < k;
    }
  }

  // ---------- the graph as objects run it ----------

  // mirrors[o] lists the slots that output o feeds, once each.
  ghost predicate MirrorsOk(net: Net, mirrors: seq<seq<nat>>) {
    && |mirrors| == |net.owner|
    && (forall o :: 0 <= o < |mirrors| ==> Distinct(mirrors[o]))
    && (forall o, i :: 0 <= o < |mirrors| && 0 <= i < |mirrors[o]| ==>
          mirrors[o][i] < |net.feed| && net.feed[mirrors[o][i]] == o)
    && (forall j :: 0 <= j < |net.feed| && 0 <= net.feed[j] < |mirrors| ==> j in mirrors[net.feed[j]])
  }

  /** Node::initializeInputStream over all nodes, then ObserveOutputStream: every
      slot registers with the output stream that feeds it. */
  method AddMirrors(net: Net) returns (mirrors: seq<seq<nat>>)
    requires forall j :: 0 <= j < |net.feed| ==> -1 <= net.feed[j] < |net.owner|
    ensures MirrorsOk(net, mirrors)
  {
    mirrors := seq(|net.owner|, _ => []);
    for j := 0 to |net.feed|
      invariant |mirrors| == |net.owner|
      invariant forall o :: 0 <= o < |mirrors| ==> Distinct(mirrors[o])
      invariant forall o, i :: 0 <= o < |mirrors| && 0 <= i < |mirrors[o]| ==>
                  mirrors[o][i] < j && net.feed[mirrors[o][i]] == o
      invariant forall k :: 0 <= k < j && 0 <= net.feed[k] ==> k in mirrors[net.feed[k]]
    {
      var o := net.feed[j];
      if o >= 0 {
        mirrors := mirrors[o := mirrors[o] + [j]];
      }
    }
  }

  class Graph<S, V> {
    const net: Net
    const tasks: seq<Task<S, V>>
    const mirrors: seq<seq<nat>>
    var slots: seq<Stream<V>>
    var states: seq<S>

    ghost predicate Valid()
      reads this
    {
      StateOk(net, State(slots, states)) && |tasks| == |states| && MirrorsOk(net, mirrors)
    }

    constructor (net: Net, tasks: seq<Task<S, V>>, mirrors: seq<seq<nat>>, slots: seq<Stream<V>>, states: seq<S>)
      requires StateOk(net, State(slots, states)) && |tasks| == |states| && MirrorsOk(net, mirrors)
      ensures Valid() && this.net == net && this.tasks == tasks && this.slots == slots && this.states == states
    {
      this.net, this.tasks, this.mirrors, this.slots, this.states := net, tasks, mirrors, slots, states;
    }

    // InputStreamHandler::Marshal: empties the slots of v.
    method Marshal(v: nat) returns (inputs: seq<seq<Datum<V>>>)
      requires Valid()
      modifies `slots
      ensures Valid() && inputs == InputsOf(net, old(slots), v)
      ensures forall j :: 0 <= j < |slots| ==>
                slots[j] == if net.reader[j] == v then Emptied(old(slots)[j]) else old(slots)[j]
    {
      hide Drained, MirrorsOk;
      inputs := [];
      for j := 0 to |slots|
        invariant |slots| == |old(slots)|
        invariant inputs == InputsOf(net.(reader := net.reader[..j]), old(slots)[..j], v)
        invariant forall k :: 0 <= k < j ==>
                    slots[k] == if net.reader[k] == v then Emptied(old(slots)[k]) else old(slots)[k]
        invariant forall k :: j <= k < |slots| ==> slots[k] == old(slots)[k]
      {
        assert net.reader[..j + 1][..j] == net.reader[..j] && old(slots)[..j + 1][..j] == old(slots)[..j];
        if net.reader[j] == v {
          inputs := inputs + [Drained(slots[j])];
          slots := slots[j := Emptied(slots[j])];
        }
      }
      assert net.reader[..|slots|] == net.reader && old(slots)[..|slots|] == old(slots);
    }

    // OutputStreamHandler::Propagate: each output of v to all its mirrors.
    method Propagate(v: nat, outs: seq<seq<Datum<V>>>)
      requires Valid() && v < |tasks|
      modifies `slots
      ensures Valid()
      ensures forall j :: 0 <= j < |slots| ==>
                slots[j] == if FeederOf(net, j) == v then AddTo(old(slots)[j], OutputAt(outs, net.feed[j] - net.outBase[v]))
                            else old(slots)[j]
      ensures forall j, k :: 0 <= j < |slots| && 0 <= k < |outs| && Takes(net, j, v, k) ==>
                slots[j].queue == old(slots)[j].queue + outs[k]
    {
      hide AddTo, OutputAt;
      for o := 0 to |net.owner|
        invariant |slots| == |old(slots)| == |net.feed|
        invariant forall j :: 0 <= j < |slots| ==>
                    slots[j] == if FeederOf(net, j) == v && net.feed[j] < o
                                then AddTo(old(slots)[j], OutputAt(outs, net.feed[j] - net.outBase[v]))
                                else old(slots)[j]
      {
        if net.owner[o] == v {
          var data := OutputAt(outs, o - net.outBase[v]);
          ghost var before := slots;
          for i := 0 to |mirrors[o]|
            invariant |slots| == |before| == |net.feed|
            invariant forall j :: 0 <= j < |slots| ==>
                        slots[j] == if j in mirrors[o][..i] then AddTo(before[j], data) else before[j]
          {
            var m := mirrors[o][i];
            assert mirrors[o][..i + 1] == mirrors[o][..i] + [m];
            assert m !in mirrors[o][..i];
            slots := slots[m := AddTo(slots[m], data)];
          }
          assert mirrors[o][..|mirrors[o]|] == mirrors[o];
        }
      }
      forall j, k | 0 <= j < |slots| && 0 <= k < |outs| && Takes(net, j, v, k)
        ensures slots[j].queue == old(slots)[j].queue + outs[k]
      {
        AddedOutput(old(slots)[j], outs, k);
      }
    }

    // GraphInputStream::Propagate: data of a graph input to all its mirrors.
    method AddToInput(o: nat, data: seq<Datum<V>>)
      requires Valid() && o < |net.owner| && net.owner[o] < 0
      modifies `slots
      ensures Valid()
      ensures forall j :: 0 <= j < |slots| ==>
                slots[j] == if net.feed[j] == o then AddTo(old(slots)[j], data) else old(slots)[j]
    {
      hide AddTo;
      ghost var before := slots;
      for i := 0 to |mirrors[o]|
        invariant |slots| == |before| == |net.feed|
        invariant forall j :: 0 <= j < |slots| ==>
                    slots[j] == if j in mirrors[o][..i] then AddTo(before[j], data) else before[j]
      {
        var m := mirrors[o][i];
        assert mirrors[o][..i + 1] == mirrors[o][..i] + [m];
        assert m !in mirrors[o][..i];
        slots := slots[m := AddTo(slots[m], data)];
      }
      assert mirrors[o][..|mirrors[o]|] == mirrors[o];
    }

    /** Node::Process: drain, run the task, propagate. */
    method Process(v: nat)
      requires Valid() && v < |tasks|
      modifies this
      ensures Valid() && State(slots, states) == Step(net, tasks, old(State(slots, states)), v)
    {
      hide MirrorsOk, AddTo, OutputAt, NetOk;
      var inputs := Marshal(v);
      var (s, outs) := tasks[v](states[v], inputs);
      states := states[v := s];
      Propagate(v, outs);
      assert slots == Step(net, tasks, old(State(slots, states)), v).slots;
    }

    // The executor runs the nodes in some order.
    method RunOnce(order: seq<nat>)
      requires Valid() && Nodes(order, |tasks|)
      modifies this
      ensures Valid() && State(slots, states) == RunOrder(net, tasks, old(State(slots, states)), order)
    {
      hide Step, MirrorsOk;
      for i := 0 to |order|
        invariant Valid()
        invariant RunOrder(net, tasks, old(State(slots, states)), order)
               == RunOrder(net, tasks, State(slots, states), order[i..])
      {
        assert order[i..][0] == order[i] && order[i..][1..] == order[i + 1..];
        Process(order[i]);
      }
    }
  }
}
