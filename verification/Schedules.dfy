/**
 dni/framework/graph.cc, PrepareForRun: the executor gets one task per node and one
 edge per predecessor name. Tasks are kept in a map by node name, so both ends of an
 edge are the tasks registered under the two names. With distinct names every
 schedule gives the same result; names that collide can break that.
 */
module Schedules {
  import opened Counting
  import opened GraphRun
  import opened NodeNames
  import opened GraphConfig

  ghost predicate DistinctNames(nodes: seq<NodeConf>) {
    forall p, q :: 0 <= p < q < |nodes| ==> nodes[p].name != nodes[q].name
  }

  // The canonical names are distinct exactly when the configuration's names are safe.
  lemma NamesDistinct(protos: seq<NodeProto>)
    ensures DistinctNames(Named(protos)) <==> NamesSafe(Bases(protos))
  {
    hide Canonical, NamesSafe;
    DistinctExactly(Bases(protos));
    var nodes := Named(protos);
    assert forall v :: 0 <= v < |nodes| ==> nodes[v].name == Canonical(Bases(protos), v);
  }

  // The task registered under a name: `emplace` keeps the first node that has it.
  function Registered(nodes: seq<NodeConf>, name: string): (p: int)
    ensures -1 <= p < |nodes| && (p >= 0 ==> nodes[p].name == name)
    ensures forall q :: 0 <= q < (if p < 0 then |nodes| else p) ==> nodes[q].name != name
  {
    if nodes == [] then -1
    else
      var p := Registered(nodes[..|nodes| - 1], name);
      if p >= 0 then p else if nodes[|nodes| - 1].name == name then |nodes| - 1 else -1
  }

  // An edge of the executor, from task p to task q.
  ghost predicate Edge(gin: seq<string>, nodes: seq<NodeConf>, p: int, q: int) {
    exists v, name :: 0 <= v < |nodes| && name in PredecessorsOf(gin, nodes, v)
                      && p == Registered(nodes, name) && q == Registered(nodes, nodes[v].name)
  }

  // What the executor may do: every task once, along the edges.
  ghost predicate Schedule(gin: seq<string>, nodes: seq<NodeConf>, order: seq<nat>) {
    && Distinct(order) && Elements(order) == Below(|nodes|)
    && forall p, q :: Edge(gin, nodes, p, q) ==> Precedes(order, p, q)
  }

  // The map of tasks by name.
  ghost predicate Registers(nodes: seq<NodeConf>, m: map<string, nat>) {
    forall name :: (name in m <==> Registered(nodes, name) >= 0) && (name in m ==> m[name] == Registered(nodes, name))
  }

  lemma RegistersMore(nodes: seq<NodeConf>, m: map<string, nat>, v: nat)
    requires v < |nodes| && Registers(nodes[..v], m)
    ensures Registers(nodes[..v + 1], if nodes[v].name in m then m else m[nodes[v].name := v])
  {
    assert nodes[..v + 1][..v] == nodes[..v] && nodes[..v + 1][v] == nodes[v];
  }

  // The edges of the first v nodes, and of node v those from the names in done.
  ghost predicate EdgeOf(gin: seq<string>, nodes: seq<NodeConf>, v: nat, done: set<string>, p: int, q: int) {
    exists w, name :: 0 <= w < |nodes| && name in PredecessorsOf(gin, nodes, w) && (w < v || (w == v && name in done))
                      && p == Registered(nodes, name) && q == Registered(nodes, nodes[w].name)
  }

  lemma EdgeOfMore(gin: seq<string>, nodes: seq<NodeConf>, v: nat, done: set<string>, name: string, p: int, q: int)
    requires v < |nodes| && name in PredecessorsOf(gin, nodes, v)
    ensures EdgeOf(gin, nodes, v, done + {name}, p, q) <==>
            EdgeOf(gin, nodes, v, done, p, q) || (p == Registered(nodes, name) && q == Registered(nodes, nodes[v].name))
  {
    hide PredecessorsOf, Registered;
  }

  lemma EdgeOfNext(gin: seq<string>, nodes: seq<NodeConf>, v: nat, p: int, q: int)
    requires v < |nodes|
    ensures EdgeOf(gin, nodes, v, PredecessorsOf(gin, nodes, v), p, q) <==> EdgeOf(gin, nodes, v + 1, {}, p, q)
  {
    hide PredecessorsOf, Registered;
  }

  lemma EdgeOfEnds(gin: seq<string>, nodes: seq<NodeConf>, p: int, q: int)
    ensures !EdgeOf(gin, nodes, 0, {}, p, q)
    ensures EdgeOf(gin, nodes, |nodes|, {}, p, q) <==> Edge(gin, nodes, p, q)
  {
    hide PredecessorsOf, Registered;
  }

  /** The loops over all nodes: tasks by name, the first of each name, then one edge
      for every name in every predecessor set. */
  method PrecedenceEdges(gin: seq<string>, nodes: seq<NodeConf>, predecessors: seq<set<string>>) returns (edges: set<(int, int)>)
    requires |predecessors| == |nodes| && forall v :: 0 <= v < |nodes| ==> predecessors[v] == PredecessorsOf(gin, nodes, v)
    ensures forall p, q :: (p, q) in edges <==> Edge(gin, nodes, p, q)
  {
    hide PredecessorsOf, Registered, Edge, EdgeOf, Registers;
    var tasks: map<string, nat> := map[];
    assert Registers(nodes[..0], map[]) by { NoTasks(nodes[..0]); }
    for v := 0 to |nodes|
      invariant Registers(nodes[..v], tasks)
    {
      RegistersMore(nodes, tasks, v);
      if nodes[v].name !in tasks {
        tasks := tasks[nodes[v].name := v];
      }
    }
    assert nodes[..|nodes|] == nodes;
    edges := {};
    forall p, q ensures !EdgeOf(gin, nodes, 0, {}, p, q) { EdgeOfEnds(gin, nodes, p, q); }
    for v := 0 to |nodes|
      invariant forall p, q :: (p, q) in edges <==> EdgeOf(gin, nodes, v, {}, p, q)
    {
      var todo := predecessors[v];
      assert predecessors[v] - todo == {};
      while todo != {}
        invariant todo <= predecessors[v]
        invariant forall p, q :: (p, q) in edges <==> EdgeOf(gin, nodes, v, predecessors[v] - todo, p, q)
      {
        var name :| name in todo;
        TaskOf(gin, nodes, tasks, v, name);
        ghost var done := predecessors[v] - todo;
        forall p, q
          ensures EdgeOf(gin, nodes, v, done + {name}, p, q) <==>
                  EdgeOf(gin, nodes, v, done, p, q) || (p == tasks[name] && q == tasks[nodes[v].name])
        {
          EdgeOfMore(gin, nodes, v, done, name, p, q);
        }
        assert predecessors[v] - (todo - {name}) == done + {name};
        edges := edges + {(tasks[name], tasks[nodes[v].name])};
        todo := todo - {name};
      }
      assert predecessors[v] - {} == predecessors[v];
      forall p, q
        ensures EdgeOf(gin, nodes, v, predecessors[v], p, q) <==> EdgeOf(gin, nodes, v + 1, {}, p, q)
      {
        EdgeOfNext(gin, nodes, v, p, q);
      }
    }
    forall p, q ensures EdgeOf(gin, nodes, |nodes|, {}, p, q) <==> Edge(gin, nodes, p, q) { EdgeOfEnds(gin, nodes, p, q); }
  }

  lemma NoTasks(nodes: seq<NodeConf>)
    requires nodes == []
    ensures Registers(nodes, map[])
  {
  }

  // Both ends of an edge are registered.
  lemma TaskOf(gin: seq<string>, nodes: seq<NodeConf>, tasks: map<string, nat>, v: nat, name: string)
    requires Registers(nodes, tasks) && v < |nodes| && name in PredecessorsOf(gin, nodes, v)
    ensures name in tasks && nodes[v].name in tasks
    ensures tasks[name] == Registered(nodes, name) && tasks[nodes[v].name] == Registered(nodes, nodes[v].name)
  {
    hide Registered, PredecessorsOf;
    PredRegistered(gin, nodes, v, name);
    assert Registered(nodes, nodes[v].name) >= 0;
  }

  lemma RegisteredIs(nodes: seq<NodeConf>, p: nat)
    requires DistinctNames(nodes) && p < |nodes|
    ensures Registered(nodes, nodes[p].name) == p
  {
    hide Registered;
    assert Registered(nodes, nodes[p].name) >= 0;
  }

  lemma ScheduleNodes(gin: seq<string>, nodes: seq<NodeConf>, order: seq<nat>)
    requires Schedule(gin, nodes, order)
    ensures Nodes(order, |nodes|) && Distinct(order)
    ensures forall v :: 0 <= v < |nodes| ==> v in order
  {
    hide Edge, Below;
    forall i | 0 <= i < |order| ensures order[i] < |nodes| {
      assert order[i] in Elements(order);
    }
    forall v | 0 <= v < |nodes| ensures v in order {
      assert v in Elements(order);
    }
  }

  lemma ScheduleRespects(gin: seq<string>, nodes: seq<NodeConf>, observed: seq<nat>, order: seq<nat>)
    requires forall i :: 0 <= i < |observed| ==> observed[i] < |OutEdges(gin, nodes, |nodes|)|
    requires NetOk(Wiring(gin, nodes, observed), |nodes|) && DistinctNames(nodes) && Schedule(gin, nodes, order)
    ensures Nodes(order, |nodes|) && Respects(Wiring(gin, nodes, observed), order)
  {
    hide OutEdges, Wiring, PredecessorsOf, Below, Feeds, Registered, Precedes, Edge;
    var net := Wiring(gin, nodes, observed);
    ScheduleNodes(gin, nodes, order);
    forall i, j | 0 <= i < j < |order| ensures !Feeds(net, order[j], order[i]) {
      PrecedesAt(order, j, i);
      FeederEdge(gin, nodes, observed, order[j], order[i]);
    }
  }

  // With distinct names there is an edge for every feeder.
  lemma FeederEdge(gin: seq<string>, nodes: seq<NodeConf>, observed: seq<nat>, u: nat, v: nat)
    requires forall i :: 0 <= i < |observed| ==> observed[i] < |OutEdges(gin, nodes, |nodes|)|
    requires NetOk(Wiring(gin, nodes, observed), |nodes|) && DistinctNames(nodes) && u < |nodes| && v < |nodes|
    ensures Feeds(Wiring(gin, nodes, observed), u, v) ==> Edge(gin, nodes, u, v)
  {
    hide OutEdges, Wiring, PredecessorsOf, Feeds, Registered;
    if Feeds(Wiring(gin, nodes, observed), u, v) {
      FeederIsPredecessor(gin, nodes, observed, u, v);
      RegisteredIs(nodes, u);
      RegisteredIs(nodes, v);
    }
  }

  /** With safe names in the configuration, whatever schedule the executor picks, one
      run leaves the same queues, task states and observed outputs. */
  lemma SchedulesAgree<S, V>(gin: seq<string>, protos: seq<NodeProto>, observed: seq<nat>,
                             tasks: seq<Task<S, V>>, st: State<S, V>, a: seq<nat>, b: seq<nat>)
    requires NamesSafe(Bases(protos))
    requires forall i :: 0 <= i < |observed| ==> observed[i] < |OutEdges(gin, Named(protos), |protos|)|
    requires Schedule(gin, Named(protos), a) && Schedule(gin, Named(protos), b)
    requires |tasks| == |st.tasks| == |protos| && |st.slots| == |Wiring(gin, Named(protos), observed).reader|
    ensures var net := Wiring(gin, Named(protos), observed);
            && StateOk(net, st) && Nodes(a, |tasks|) && Nodes(b, |tasks|)
            && RunOrder(net, tasks, st, a) == RunOrder(net, tasks, st, b)
  {
    hide OutEdges, Wiring, RunOrder, Edge, NamesSafe;
    var nodes := Named(protos);
    NamesDistinct(protos);
    WiringOk(gin, nodes, observed);
    ScheduleRespects(gin, nodes, observed, a);
    ScheduleRespects(gin, nodes, observed, b);
    RespectsSameSides(Wiring(gin, nodes, observed), a, b);
    OrderDoesNotMatter(Wiring(gin, nodes, observed), tasks, st, a, b);
  }

  // ---------- declaration order ----------

  // No node reads one of its own outputs.
  ghost predicate NoSelfReader(gin: seq<string>, nodes: seq<NodeConf>) {
    forall v :: 0 <= v < |nodes| ==> nodes[v].name !in PredecessorsOf(gin, nodes, v)
  }

  function Declaration(n: nat): (s: seq<nat>)
    ensures |s| == n && forall i :: 0 <= i < n ==> s[i] == i
  {
    seq(n, i requires 0 <= i < n => i)
  }

  lemma {:induction false} PredsAreDeclared(nodes: seq<NodeConf>, out: seq<EdgeInfo>, inputs: seq<string>, t: nat, v: nat, name: string)
    requires t <= |inputs| && v < |nodes| && name in Preds(nodes, out, inputs, t)
    requires forall i :: 0 <= i < |out| && out[i].parent.TaskRef? ==> out[i].parent.index <= v
    ensures exists p :: 0 <= p <= v && nodes[p].name == name
    decreases t
  {
    hide LastIndex;
    if name in Preds(nodes, out, inputs, t - 1) {
      PredsAreDeclared(nodes, out, inputs, t - 1, v, name);
    }
  }

  // A predecessor is registered no later than the node that names it.
  lemma PredRegistered(gin: seq<string>, nodes: seq<NodeConf>, v: nat, name: string)
    requires v < |nodes| && name in PredecessorsOf(gin, nodes, v)
    ensures 0 <= Registered(nodes, name) <= v
  {
    hide OutEdges, Preds, Registered;
    var out := OutEdges(gin, nodes, v + 1);
    forall o | 0 <= o < |out| && out[o].parent.TaskRef? ensures out[o].parent.index <= v {
      OutOwner(gin, nodes, v + 1, o);
    }
    PredsAreDeclared(nodes, out, nodes[v].inputs, |nodes[v].inputs|, v, name);
  }

  lemma DeclaredSchedule(gin: seq<string>, nodes: seq<NodeConf>)
    requires DistinctNames(nodes) && NoSelfReader(gin, nodes)
    ensures Schedule(gin, nodes, Declaration(|nodes|))
  {
    hide Edge, Precedes, Below;
    var d := Declaration(|nodes|);
    assert Elements(d) == Below(|nodes|) by {
      forall x | x in Below(|nodes|) ensures x in d { assert d[x] == x; }
    }
    forall p, q | Edge(gin, nodes, p, q) ensures Precedes(d, p, q) {
      EdgeForward(gin, nodes, p, q);
      PrecedesAt(d, p, q);
    }
  }

  lemma EdgeForward(gin: seq<string>, nodes: seq<NodeConf>, p: int, q: int)
    requires DistinctNames(nodes) && NoSelfReader(gin, nodes) && Edge(gin, nodes, p, q)
    ensures 0 <= p < q < |nodes|
  {
    hide PredecessorsOf, Registered;
    var v, name :| 0 <= v < |nodes| && name in PredecessorsOf(gin, nodes, v)
                   && p == Registered(nodes, name) && q == Registered(nodes, nodes[v].name);
    PredRegistered(gin, nodes, v, name);
    RegisteredIs(nodes, v);
  }

  lemma SelfReaderBlocks(gin: seq<string>, nodes: seq<NodeConf>, order: seq<nat>)
    requires DistinctNames(nodes) && Schedule(gin, nodes, order)
    ensures NoSelfReader(gin, nodes)
  {
    hide PredecessorsOf, Below, Registered;
    forall v | 0 <= v < |nodes| ensures nodes[v].name !in PredecessorsOf(gin, nodes, v) {
      RegisteredIs(nodes, v);
      NotBoth(order, v, v);
    }
  }

  /** With safe names, declaration order is a schedule exactly when no node reads its
      own output; otherwise there is no schedule at all. */
  lemma DeclarationOrder(gin: seq<string>, protos: seq<NodeProto>)
    requires NamesSafe(Bases(protos))
    ensures Schedule(gin, Named(protos), Declaration(|protos|)) <==> NoSelfReader(gin, Named(protos))
    ensures !NoSelfReader(gin, Named(protos)) ==> forall order :: !Schedule(gin, Named(protos), order)
  {
    hide NoSelfReader, Schedule, NamesSafe;
    var nodes := Named(protos);
    NamesDistinct(protos);
    if NoSelfReader(gin, nodes) {
      DeclaredSchedule(gin, nodes);
    } else {
      forall order ensures !Schedule(gin, nodes, order) {
        if Schedule(gin, nodes, order) { SelfReaderBlocks(gin, nodes, order); }
      }
    }
  }

  // ---------- any names: when the schedules agree ----------

  // A set of tasks that edges do not leave.
  ghost predicate Closed(gin: seq<string>, nodes: seq<NodeConf>, r: set<int>) {
    forall p, q :: p in r && Edge(gin, nodes, p, q) ==> q in r
  }

  // The edges lead from u to v: everything closed that holds u holds v.
  ghost predicate LeadsTo(gin: seq<string>, nodes: seq<NodeConf>, u: int, v: int) {
    forall r: set<int> :: u in r && Closed(gin, nodes, r) ==> v in r
  }

  // Then every schedule has u before v.
  lemma LeadsPrecedes(gin: seq<string>, nodes: seq<NodeConf>, order: seq<nat>, u: nat, v: nat)
    requires Schedule(gin, nodes, order) && LeadsTo(gin, nodes, u, v) && u < |nodes| && u != v
    ensures Precedes(order, u, v)
  {
    hide Edge, Below;
    ScheduleNodes(gin, nodes, order);
    assert u in order;
    var i :| 0 <= i < |order| && order[i] == u;
    var r: set<int> := set k | i <= k < |order| :: order[k];
    assert order[i] in r;
    assert Closed(gin, nodes, r) by {
      forall p, q | p in r && Edge(gin, nodes, p, q) ensures q in r {
        var k, l := PrecedesIn(order, p, q);
        assert order[l] in r;
      }
    }
    assert v in r;
  }

  // The tasks of an order that are in r, or that are not.
  ghost function Keep(order: seq<nat>, r: set<int>, inside: bool): (s: seq<nat>)
    ensures forall x :: x in s <==> x in order && (x in r <==> inside)
    ensures Distinct(order) ==> Distinct(s)
  {
    if order == [] then []
    else
      var n := |order| - 1;
      assert order == order[..n] + [order[n]];
      Keep(order[..n], r, inside) + if order[n] in r <==> inside then [order[n]] else []
  }

  lemma {:induction false} KeepPrecedes(order: seq<nat>, r: set<int>, inside: bool, u: int, v: int)
    requires Precedes(order, u, v) && (u in r <==> inside) && (v in r <==> inside)
    ensures Precedes(Keep(order, r, inside), u, v)
  {
    var i, j := PrecedesIn(order, u, v);
    var n := |order| - 1;
    var init, kept := order[..n], Keep(order[..n], r, inside);
    if j < n {
      assert init[i] == u && init[j] == v;
      KeepPrecedes(init, r, inside, u, v);
      var k, l := PrecedesIn(kept, u, v);
      assert Keep(order, r, inside)[k] == u && Keep(order, r, inside)[l] == v;
    } else {
      assert init[i] == u && order[i] in kept;
      var k :| 0 <= k < |kept| && kept[k] == u;
      assert Keep(order, r, inside) == kept + [order[n]];
      assert Keep(order, r, inside)[k] == u && Keep(order, r, inside)[|kept|] == v;
    }
  }

  // The tasks outside a closed set may all go first.
  lemma OutsideFirst(gin: seq<string>, nodes: seq<NodeConf>, order: seq<nat>, r: set<int>)
    requires Schedule(gin, nodes, order) && Closed(gin, nodes, r)
    ensures Schedule(gin, nodes, Keep(order, r, false) + Keep(order, r, true))
  {
    hide Edge, Below, Precedes, Keep;
    var a, b := Keep(order, r, false), Keep(order, r, true);
    assert Distinct(a + b) by { ApartConcat(a, b, r); }
    assert Elements(a + b) == Elements(order);
    forall p, q | Edge(gin, nodes, p, q) ensures Precedes(a + b, p, q) {
      if (p in r) == (q in r) {
        KeepPrecedes(order, r, p in r, p, q);
      } else {
        InOrder(order, p, q);
      }
      PrecedesConcat(a, b, p, q);
    }
  }

  lemma ApartConcat(a: seq<nat>, b: seq<nat>, r: set<int>)
    requires Distinct(a) && Distinct(b) && (forall x :: x in a ==> x !in r) && (forall x :: x in b ==> x in r)
    ensures Distinct(a + b)
  {
    forall i, j | 0 <= i < |a| && 0 <= j < |b| ensures a[i] != b[j] {
      assert a[i] in a && b[j] in b;
    }
  }

  lemma InOrder(order: seq<nat>, p: int, q: int)
    requires Precedes(order, p, q)
    ensures p in order && q in order
  {
  }

  lemma PrecedesConcat(a: seq<nat>, b: seq<nat>, p: int, q: int)
    ensures Precedes(a, p, q) || Precedes(b, p, q) || (p in a && q in b) ==> Precedes(a + b, p, q)
  {
    if Precedes(a, p, q) {
      var i, j := PrecedesIn(a, p, q);
      assert (a + b)[i] == p && (a + b)[j] == q;
    } else if Precedes(b, p, q) {
      var i, j := PrecedesIn(b, p, q);
      assert (a + b)[|a| + i] == p && (a + b)[|a| + j] == q;
    } else if p in a && q in b {
      var i :| 0 <= i < |a| && a[i] == p;
      var j :| 0 <= j < |b| && b[j] == q;
      assert (a + b)[i] == p && (a + b)[|a| + j] == q;
    }
  }

  // Where the edges do not lead from u to v, some schedule has v before u.
  lemma MayTurnAround(gin: seq<string>, nodes: seq<NodeConf>, order: seq<nat>, u: nat, v: nat) returns (turned: seq<nat>)
    requires Schedule(gin, nodes, order) && !LeadsTo(gin, nodes, u, v) && u < |nodes| && v < |nodes|
    ensures Schedule(gin, nodes, turned) && Precedes(turned, v, u)
  {
    hide Edge, Schedule, Keep, Closed, Precedes;
    var r: set<int> :| u in r && Closed(gin, nodes, r) && v !in r;
    ScheduleNodes(gin, nodes, order);
    OutsideFirst(gin, nodes, order, r);
    PrecedesConcat(Keep(order, r, false), Keep(order, r, true), v, u);
    turned := Keep(order, r, false) + Keep(order, r, true);
  }

  lemma NotBoth(order: seq<nat>, u: nat, v: nat)
    requires Distinct(order)
    ensures !(Precedes(order, u, v) && Precedes(order, v, u))
  {
  }

  // Every two schedules have the same sides.
  ghost predicate AllSameSides(gin: seq<string>, nodes: seq<NodeConf>, net: Net)
    requires |net.feed| == |net.reader| && forall j :: 0 <= j < |net.feed| ==> net.feed[j] < |net.owner|
  {
    forall a, b :: Schedule(gin, nodes, a) && Schedule(gin, nodes, b) ==> SameSides(net, a, b)
  }

  // The edges lead from each node to each one it feeds, or the other way.
  ghost predicate EdgesCoverFeeds(gin: seq<string>, nodes: seq<NodeConf>, net: Net)
    requires |net.feed| == |net.reader| && forall j :: 0 <= j < |net.feed| ==> net.feed[j] < |net.owner|
  {
    forall u: nat, v: nat :: u < |nodes| && v < |nodes| && u != v && Feeds(net, u, v)
                             ==> LeadsTo(gin, nodes, u, v) || LeadsTo(gin, nodes, v, u)
  }

  /** Whatever the names: if there is a schedule at all, the schedules agree on every
      node and its feeders exactly when the edges lead between the two. */
  lemma SchedulesAgreeExactly(gin: seq<string>, nodes: seq<NodeConf>, net: Net, order: seq<nat>)
    requires NetOk(net, |nodes|) && Schedule(gin, nodes, order)
    ensures AllSameSides(gin, nodes, net) <==> EdgesCoverFeeds(gin, nodes, net)
  {
    hide Schedule, Precedes, LeadsTo, Feeds;
    if EdgesCoverFeeds(gin, nodes, net) {
      forall a, b | Schedule(gin, nodes, a) && Schedule(gin, nodes, b) ensures SameSides(net, a, b) {
        CoveredSides(gin, nodes, net, a, b);
      }
    } else {
      var u: nat, v: nat :| u < |nodes| && v < |nodes| && u != v && Feeds(net, u, v)
                            && !LeadsTo(gin, nodes, u, v) && !LeadsTo(gin, nodes, v, u);
      var a := MayTurnAround(gin, nodes, order, u, v);
      var b := MayTurnAround(gin, nodes, order, v, u);
      ScheduleNodes(gin, nodes, a);
      NotBoth(a, u, v);
      assert !SameSides(net, a, b);
    }
  }

  /** Whatever the names: all schedules give one result for all tasks and states
      exactly when the edges lead between every node and its feeders. */
  lemma IndependentExactly<S(!new), V(!new)>(gin: seq<string>, nodes: seq<NodeConf>, net: Net, order: seq<nat>, s: S)
    requires NetOk(net, |nodes|) && Schedule(gin, nodes, order)
    ensures EdgesCoverFeeds(gin, nodes, net) <==>
            forall a, b, tasks: seq<Task<S, V>>, st: State<S, V> ::
              Schedule(gin, nodes, a) && Schedule(gin, nodes, b) && Nodes(a, |nodes|) && Nodes(b, |nodes|)
              && StateOk(net, st) && |tasks| == |st.tasks| == |nodes|
              ==> RunOrder(net, tasks, st, a) == RunOrder(net, tasks, st, b)
  {
    hide EdgesCoverFeeds, RunOrder, SameSides, Edge;
    SchedulesAgreeExactly(gin, nodes, net, order);
    forall a, b | Schedule(gin, nodes, a) && Schedule(gin, nodes, b)
      ensures Nodes(a, |nodes|) && Nodes(b, |nodes|)
      ensures SameSides(net, a, b) <==>
              forall tasks: seq<Task<S, V>>, st: State<S, V> ::
                StateOk(net, st) && |tasks| == |st.tasks| == |nodes| ==> RunOrder(net, tasks, st, a) == RunOrder(net, tasks, st, b)
    {
      ScheduleNodes(gin, nodes, a);
      ScheduleNodes(gin, nodes, b);
      AgreeExactly<S, V>(net, |nodes|, a, b, s);
    }
  }

  lemma CoveredSides(gin: seq<string>, nodes: seq<NodeConf>, net: Net, a: seq<nat>, b: seq<nat>)
    requires NetOk(net, |nodes|) && Schedule(gin, nodes, a) && Schedule(gin, nodes, b) && EdgesCoverFeeds(gin, nodes, net)
    ensures SameSides(net, a, b)
  {
    hide Schedule, Precedes, LeadsTo, Feeds;
    ScheduleNodes(gin, nodes, a);
    ScheduleNodes(gin, nodes, b);
    forall u: nat, v: nat | u != v && Feeds(net, u, v) ensures Precedes(a, u, v) <==> Precedes(b, u, v) {
      assert u < |nodes| && v < |nodes| by { FeedsNodes(net, |nodes|, u, v); }
      NotBoth(a, u, v);
      NotBoth(b, u, v);
      if LeadsTo(gin, nodes, u, v) {
        LeadsPrecedes(gin, nodes, a, u, v);
        LeadsPrecedes(gin, nodes, b, u, v);
      } else {
        LeadsPrecedes(gin, nodes, a, v, u);
        LeadsPrecedes(gin, nodes, b, v, u);
      }
    }
  }

  lemma FeedsNodes(net: Net, n: nat, u: nat, v: nat)
    requires NetOk(net, n) && Feeds(net, u, v)
    ensures u < n && v < n
  {
  }

  // ---------- a configuration on which it fails ----------

  const COLLIDING := [NodeProto("a", "", [], []), NodeProto("a", "", [], ["x"]), NodeProto("a_0", "", ["x"], [])]

  lemma CollidingNames()
    ensures Named(COLLIDING) == [NodeConf("a_0", [], []), NodeConf("a_1", [], ["x"]), NodeConf("a_0", ["x"], [])]
  {
    NamesCollide();
    assert Bases(COLLIDING) == ["a", "a", "a_0"];
  }

  // The third node reads the second one.
  lemma CollidingWiring()
    ensures var net := Wiring([], Named(COLLIDING), []);
            NetOk(net, 3) && Feeds(net, 1, 2)
  {
    CollidingNames();
    var nodes := Named(COLLIDING);
    var x, y := EdgeInfo("x", TaskRef(1), -1), EdgeInfo("x", TaskRef(2), 0);
    assert OutEdges([], nodes, 1) == [];
    assert OutEdges([], nodes, 2) == [x];
    assert OutEdges([], nodes, 3) == [x];
    assert LastIndex([x], "x") == 0;
    assert InEdges([], nodes, 1) == [];
    assert InEdges([], nodes, 2) == [];
    assert InEdges([], nodes, 3) == [y];
    WiringOk([], nodes, []);
    var net := Wiring([], nodes, []);
    assert net.reader[0] == 2 && FeederOf(net, 0) == 1;
  }

  // Its edge lands on the first node, which has the same name.
  lemma CollidingEdges(p: int, q: int)
    ensures Edge([], Named(COLLIDING), p, q) ==> p == 1 && q == 0
  {
    hide Named, Registered, PredecessorsOf;
    var nodes := Named(COLLIDING);
    CollidingNames();
    CollidingPreds(nodes);
    CollidingTasks(nodes);
  }

  lemma CollidingTasks(nodes: seq<NodeConf>)
    requires |nodes| == 3 && nodes[0].name == nodes[2].name == "a_0" && nodes[1].name == "a_1"
    ensures Registered(nodes, "a_0") == 0 && Registered(nodes, "a_1") == 1
  {
    hide Registered;
    assert "a_0"[2] != "a_1"[2];
  }

  lemma CollidingPreds(nodes: seq<NodeConf>)
    requires nodes == [NodeConf("a_0", [], []), NodeConf("a_1", [], ["x"]), NodeConf("a_0", ["x"], [])]
    ensures PredecessorsOf([], nodes, 0) == {} && PredecessorsOf([], nodes, 1) == {}
    ensures PredecessorsOf([], nodes, 2) == {"a_1"}
  {
    var x := EdgeInfo("x", TaskRef(1), -1);
    assert OutEdges([], nodes, 1) == [];
    assert OutEdges([], nodes, 2) == [x];
    assert OutEdges([], nodes, 3) == [x];
    assert LastIndex([x], "x") == 0;
    assert Preds(nodes, [x], ["x"], 0) == {};
  }

  lemma OnlyEdge(gin: seq<string>, nodes: seq<NodeConf>, order: seq<nat>)
    requires |nodes| == 3 && forall p, q :: Edge(gin, nodes, p, q) ==> p == 1 && q == 0
    requires Distinct(order) && Elements(order) == {0, 1, 2} && Precedes(order, 1, 0)
    ensures Schedule(gin, nodes, order)
  {
    hide Edge, Precedes;
    assert Below(3) == {0, 1, 2};
  }

  lemma CollidingSchedules(a: seq<nat>, b: seq<nat>)
    requires a == [1, 0, 2] && b == [2, 1, 0]
    ensures Schedule([], Named(COLLIDING), a) && Schedule([], Named(COLLIDING), b)
  {
    hide Edge, Named, Precedes, Schedule;
    assert Elements(a) == {0, 1, 2} && Elements(b) == {0, 1, 2};
    PrecedesAt(a, 0, 1);
    PrecedesAt(b, 1, 2);
    forall p, q | Edge([], Named(COLLIDING), p, q) ensures p == 1 && q == 0 {
      CollidingEdges(p, q);
    }
    OnlyEdge([], Named(COLLIDING), a);
    OnlyEdge([], Named(COLLIDING), b);
  }

  /** Nodes a, a and a_0: the executor may run the reader before or after the node
      that feeds it, with different results. */
  lemma CollisionBreaksAgreement<S(!new), V(!new)>(s: S)
    returns (a: seq<nat>, b: seq<nat>, net: Net, tasks: seq<Task<S, V>>, st: State<S, V>)
    ensures a == [1, 0, 2] && b == [2, 1, 0] && net == Wiring([], Named(COLLIDING), [])
    ensures Schedule([], Named(COLLIDING), a) && Schedule([], Named(COLLIDING), b)
    ensures StateOk(net, st) && |tasks| == |st.tasks| == 3
    ensures RunOrder(net, tasks, st, a) != RunOrder(net, tasks, st, b)
  {
    hide Wiring, Schedule, RunOrder, Named, Feeds, NetOk;
    a, b, net := [1, 0, 2], [2, 1, 0], Wiring([], Named(COLLIDING), []);
    CollidingSchedules(a, b);
    CollidingWiring();
    assert a[0] == 1 && a[2] == 2 && b[0] == 2 && b[1] == 1;
    tasks, st := OppositeSidesDiffer(net, 3, a, b, 1, 2, s);
  }
}
