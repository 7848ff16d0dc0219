/**
 dni/go/sdk/config/config.go: the checks and the edge maps of a graph
 configuration. Streams are names; a node input is fed either by the graph input
 of that name or by the one node that has an output of that name.
 */
module GraphEdges {
  import opened Counting
  import opened KahnOrder

  datatype NodeUnit = NodeUnit(inputs: seq<string>, outputs: seq<string>)
  datatype GraphUnit = GraphUnit(inputs: seq<string>, outputs: seq<string>, nodes: seq<NodeUnit>)

  type Owners = map<string, nat>
  type NodeEdge = map<nat, map<string, seq<nat>>>

  datatype Fault = RepeatedInput | RepeatedOutput | GraphOutputUnfed | InputUnfed | HasLoop
  datatype Check = Pass | Fail(fault: Fault)
  datatype Outcome = Accepted(nodeEdge: NodeEdge, order: seq<nat>) | Rejected(fault: Fault)

  // ---------- what a configuration means ----------

  ghost predicate InputsDistinct(nodes: seq<NodeUnit>) {
    forall p :: 0 <= p < |nodes| ==> Distinct(nodes[p].inputs)
  }

  // No stream name is an output twice, in one node or in two.
  ghost predicate OutputsDistinct(nodes: seq<NodeUnit>) {
    && (forall p :: 0 <= p < |nodes| ==> Distinct(nodes[p].outputs))
    && (forall p, q, o :: 0 <= p < q < |nodes| && o in nodes[p].outputs ==> o !in nodes[q].outputs)
  }

  // owners maps each output name to the node that has it.
  ghost predicate OwnersOf(nodes: seq<NodeUnit>, owners: Owners) {
    && (forall p, o :: 0 <= p < |nodes| && o in nodes[p].outputs ==> o in owners && owners[o] == p)
    && (forall o :: o in owners ==> owners[o] < |nodes| && o in nodes[owners[o]].outputs)
  }

  // The nodes below k that read a stream, in ascending order.
  function Consumers(nodes: seq<NodeUnit>, name: string, k: nat): seq<nat>
    requires k <= |nodes|
  {
    if k == 0 then []
    else Consumers(nodes, name, k - 1) + if name in nodes[k - 1].inputs then [k - 1] else []
  }

  // The nodes that feed some of the given inputs.
  function Feeders(g: set<string>, inputs: seq<string>, owners: Owners): set<nat> {
    set i | 0 <= i < |inputs| && inputs[i] !in g && inputs[i] in owners :: owners[inputs[i]]
  }

  ghost predicate Fed(g: set<string>, inputs: seq<string>, owners: Owners) {
    forall i :: 0 <= i < |inputs| ==> inputs[i] in g || inputs[i] in owners
  }

  function PreMap(g: set<string>, nodes: seq<NodeUnit>, owners: Owners): map<nat, set<nat>> {
    map v: nat | v < |nodes| :: Feeders(g, nodes[v].inputs, owners)
  }

  ghost predicate Acceptable(gu: GraphUnit, owners: Owners) {
    && InputsDistinct(gu.nodes) && OutputsDistinct(gu.nodes) && OwnersOf(gu.nodes, owners)
    && (forall o :: o in gu.outputs ==> o in owners)
    && (forall v :: 0 <= v < |gu.nodes| ==> Fed(Elements(gu.inputs), gu.nodes[v].inputs, owners))
    && Acyclic(PreMap(Elements(gu.inputs), gu.nodes, owners))
  }

  // Readers of output o once nodes below nid and the first t inputs of nid are done.
  function Readers(g: set<string>, nodes: seq<NodeUnit>, o: string, nid: nat, t: nat): seq<nat>
    requires nid <= |nodes| && (if nid < |nodes| then t <= |nodes[nid].inputs| else t == 0)
  {
    if o in g then []
    else Consumers(nodes, o, nid) + if nid < |nodes| && o in nodes[nid].inputs[..t] then [nid] else []
  }

  ghost predicate EdgesAt(g: set<string>, nodes: seq<NodeUnit>, e: NodeEdge, nid: nat, t: nat)
    requires nid <= |nodes| && (if nid < |nodes| then t <= |nodes[nid].inputs| else t == 0)
  {
    && (forall p: nat :: p in e <==> p < |nodes|)
    && (forall p, o :: p in e ==> (o in e[p] <==> o in nodes[p].outputs))
    && (forall p, o :: p in e && o in e[p] ==> e[p][o] == Readers(g, nodes, o, nid, t))
  }

  // ---------- collecting the outputs ----------

  // The check of one node's inputs.
  method RepeatedIn(names: seq<string>) returns (dup: bool)
    ensures dup <==> !Distinct(names)
  {
    var seen: set<string> := {};
    for i := 0 to |names|
      invariant seen == Elements(names[..i]) && Distinct(names[..i])
    {
      if names[i] in seen {
        var j :| 0 <= j < |names[..i]| && names[..i][j] == names[i];
        assert names[j] == names[i];
        return true;
      }
      assert names[..i + 1] == names[..i] + [names[i]];
      seen := seen + {names[i]};
    }
    assert names[..|names|] == names;
    return false;
  }

  // The nodes below nid, and of nid the first t outputs.
  function Partial(nodes: seq<NodeUnit>, nid: nat, t: nat): (r: seq<NodeUnit>)
    requires nid < |nodes| && t <= |nodes[nid].outputs|
    ensures |r| == nid + 1
  {
    nodes[..nid] + [NodeUnit(nodes[nid].inputs, nodes[nid].outputs[..t])]
  }

  // An output that is already owned repeats a name.
  lemma OwnedTwice(nodes: seq<NodeUnit>, nid: nat, t: nat, owners: Owners)
    requires nid < |nodes| && t < |nodes[nid].outputs| && OwnersOf(Partial(nodes, nid, t), owners)
    requires nodes[nid].outputs[t] in owners
    ensures !OutputsDistinct(nodes)
  {
    var o := nodes[nid].outputs[t];
    var p := owners[o];
    assert o in nodes[nid].outputs;
    if p == nid {
      var j :| 0 <= j < t && nodes[nid].outputs[j] == o;
      assert !Distinct(nodes[nid].outputs);
    }
  }

  lemma OwnOne(nodes: seq<NodeUnit>, nid: nat, t: nat, owners: Owners)
    requires nid < |nodes| && t < |nodes[nid].outputs|
    requires OwnersOf(Partial(nodes, nid, t), owners) && OutputsDistinct(Partial(nodes, nid, t))
    requires nodes[nid].outputs[t] !in owners
    ensures OwnersOf(Partial(nodes, nid, t + 1), owners[nodes[nid].outputs[t] := nid])
    ensures OutputsDistinct(Partial(nodes, nid, t + 1))
  {
    var o := nodes[nid].outputs[t];
    var a, b := Partial(nodes, nid, t), Partial(nodes, nid, t + 1);
    assert b[nid].outputs == a[nid].outputs + [o];
    assert forall p :: 0 <= p < nid ==> b[p] == a[p];
    assert o !in a[nid].outputs;
  }

  lemma NodeDone(nodes: seq<NodeUnit>, nid: nat)
    requires nid < |nodes|
    ensures Partial(nodes, nid, |nodes[nid].outputs|) == nodes[..nid + 1]
  {
    assert nodes[nid].outputs[..|nodes[nid].outputs|] == nodes[nid].outputs;
  }

  lemma NodeBegun(nodes: seq<NodeUnit>, nid: nat, owners: Owners)
    requires nid < |nodes| && OwnersOf(nodes[..nid], owners) && OutputsDistinct(nodes[..nid])
    ensures OwnersOf(Partial(nodes, nid, 0), owners) && OutputsDistinct(Partial(nodes, nid, 0))
  {
    var r := Partial(nodes, nid, 0);
    assert r[nid].outputs == [];
    assert forall p :: 0 <= p < nid ==> r[p] == nodes[..nid][p];
  }

  // The nodes of e are those below k, with an empty reader list per output.
  ghost predicate NoReaders(ns: seq<NodeUnit>, e: NodeEdge) {
    && (forall p: nat :: p in e <==> p < |ns|)
    && (forall p, o :: p in e ==> (o in e[p] <==> o in ns[p].outputs))
    && (forall p, o :: p in e && o in e[p] ==> e[p][o] == [])
  }

  lemma NoReadersBegun(nodes: seq<NodeUnit>, nid: nat, e: NodeEdge)
    requires nid < |nodes| && NoReaders(nodes[..nid], e)
    ensures NoReaders(Partial(nodes, nid, 0), e[nid := map[]])
  {
    var r := Partial(nodes, nid, 0);
    assert forall p :: 0 <= p < nid ==> r[p] == nodes[..nid][p];
  }

  lemma NoReadersOne(nodes: seq<NodeUnit>, nid: nat, t: nat, e: NodeEdge)
    requires nid < |nodes| && t < |nodes[nid].outputs| && NoReaders(Partial(nodes, nid, t), e)
    ensures nid in e && NoReaders(Partial(nodes, nid, t + 1), e[nid := e[nid][nodes[nid].outputs[t] := []]])
  {
    var o := nodes[nid].outputs[t];
    var a, b := Partial(nodes, nid, t), Partial(nodes, nid, t + 1);
    assert b[nid].outputs == a[nid].outputs + [o];
    assert forall p :: 0 <= p < nid ==> b[p] == a[p];
  }

  /** The first loop of GraphUnit.GetNodeEdge: who owns which output, with an
      empty reader list for each. */
  method CollectOutputs(nodes: seq<NodeUnit>) returns (check: Check, owners: Owners, e: NodeEdge)
    ensures check.Pass? <==> InputsDistinct(nodes) && OutputsDistinct(nodes)
    ensures check == Fail(RepeatedInput) ==> !InputsDistinct(nodes)
    ensures check == Fail(RepeatedOutput) ==> !OutputsDistinct(nodes)
    ensures check.Pass? ==> OwnersOf(nodes, owners) && NoReaders(nodes, e)
  {
    hide OwnersOf, OutputsDistinct, NoReaders, Partial, Distinct;
    owners, e := map[], map[];
    EmptyGraph();
    for nid := 0 to |nodes|
      invariant OwnersOf(nodes[..nid], owners) && OutputsDistinct(nodes[..nid]) && NoReaders(nodes[..nid], e)
      invariant forall p :: 0 <= p < nid ==> Distinct(nodes[p].inputs)
    {
      var outputs := nodes[nid].outputs;
      var dup := RepeatedIn(nodes[nid].inputs);
      if dup {
        return Fail(RepeatedInput), owners, e;
      }
      NodeBegun(nodes, nid, owners);
      NoReadersBegun(nodes, nid, e);
      e := e[nid := map[]];
      for t := 0 to |outputs|
        invariant OwnersOf(Partial(nodes, nid, t), owners) && OutputsDistinct(Partial(nodes, nid, t))
        invariant NoReaders(Partial(nodes, nid, t), e)
      {
        if outputs[t] in owners {
          OwnedTwice(nodes, nid, t, owners);
          return Fail(RepeatedOutput), owners, e;
        }
        OwnOne(nodes, nid, t, owners);
        NoReadersOne(nodes, nid, t, e);
        owners := owners[outputs[t] := nid];
        e := e[nid := e[nid][outputs[t] := []]];
      }
      NodeDone(nodes, nid);
    }
    assert nodes[..|nodes|] == nodes;
    check := Pass;
  }

  lemma EmptyGraph()
    ensures OwnersOf([], map[]) && OutputsDistinct([]) && NoReaders([], map[])
  {
  }

  // ---------- the edges ----------

  // pre and next once nodes below nid and the first t inputs of nid are done.
  ghost predicate LinksAt(g: set<string>, nodes: seq<NodeUnit>, owners: Owners,
                          pre: map<nat, set<nat>>, next: map<nat, set<nat>>, nid: nat, t: nat)
    requires nid <= |nodes| && (if nid < |nodes| then t <= |nodes[nid].inputs| else t == 0)
  {
    && Inverse(pre, next) && |pre| == |nodes|
    && forall v: nat :: v < |nodes| ==>
         v in pre && pre[v] ==
                   if v < nid then Feeders(g, nodes[v].inputs, owners)
                   else if v == nid then Feeders(g, nodes[v].inputs[..t], owners) else {}
  }

  lemma FeedersStep(g: set<string>, inputs: seq<string>, owners: Owners, t: nat)
    requires t < |inputs|
    ensures Feeders(g, inputs[..t + 1], owners) ==
            Feeders(g, inputs[..t], owners) + if inputs[t] !in g && inputs[t] in owners then {owners[inputs[t]]} else {}
  {
    var a, b := inputs[..t], inputs[..t + 1];
    assert b == a + [inputs[t]];
    forall x | x in Feeders(g, a, owners) ensures x in Feeders(g, b, owners) {
      var i :| 0 <= i < |a| && a[i] !in g && a[i] in owners && owners[a[i]] == x;
      assert b[i] == a[i];
    }
    forall x | x in Feeders(g, b, owners)
      ensures x in Feeders(g, a, owners) || (inputs[t] !in g && inputs[t] in owners && x == owners[inputs[t]])
    {
      var i :| 0 <= i < |b| && b[i] !in g && b[i] in owners && owners[b[i]] == x;
      assert i < t ==> a[i] == b[i];
    }
    if inputs[t] !in g && inputs[t] in owners { assert b[t] == inputs[t]; }
  }

  // Adding the edge u -> v to both maps keeps them inverse.
  lemma LinkBoth(pre: map<nat, set<nat>>, next: map<nat, set<nat>>, u: nat, v: nat)
    requires Inverse(pre, next) && u < |pre| && v < |pre|
    ensures u in next && v in pre
    ensures var pre', next' := pre[v := pre[v] + {u}], next[u := next[u] + {v}];
            Inverse(pre', next') && |pre'| == |pre|
  {
    assert pre.Keys + {v} == pre.Keys;
    var pre', next' := pre[v := pre[v] + {u}], next[u := next[u] + {v}];
    assert pre'.Keys == pre.Keys;
    assert |pre'| == |pre'.Keys|;
  }

  // Reader lists after one more input of nid.
  lemma ReadersStep(g: set<string>, nodes: seq<NodeUnit>, o: string, nid: nat, t: nat)
    requires nid < |nodes| && t < |nodes[nid].inputs| && Distinct(nodes[nid].inputs)
    ensures Readers(g, nodes, o, nid, t + 1) ==
            if o == nodes[nid].inputs[t] && o !in g then Readers(g, nodes, o, nid, t) + [nid]
            else Readers(g, nodes, o, nid, t)
  {
    hide Consumers;
    var inputs := nodes[nid].inputs;
    assert inputs[..t + 1] == inputs[..t] + [inputs[t]];
    assert inputs[t] !in inputs[..t];
  }

  lemma EdgesStep(g: set<string>, nodes: seq<NodeUnit>, owners: Owners, e: NodeEdge, nid: nat, t: nat)
    requires nid < |nodes| && t < |nodes[nid].inputs| && Distinct(nodes[nid].inputs)
    requires OwnersOf(nodes, owners) && EdgesAt(g, nodes, e, nid, t)
    requires nodes[nid].inputs[t] in g || nodes[nid].inputs[t] in owners
    ensures var input := nodes[nid].inputs[t];
            if input in g then EdgesAt(g, nodes, e, nid, t + 1)
            else owners[input] in e && input in e[owners[input]] &&
                 EdgesAt(g, nodes, e[owners[input] := e[owners[input]][input := e[owners[input]][input] + [nid]]], nid, t + 1)
  {
    hide Readers;
    var input := nodes[nid].inputs[t];
    var after := if input in g then e
                 else e[owners[input] := e[owners[input]][input := e[owners[input]][input] + [nid]]];
    forall p, o | p in after && o in after[p] ensures after[p][o] == Readers(g, nodes, o, nid, t + 1) {
      ReadersStep(g, nodes, o, nid, t);
    }
  }

  lemma ReadersNext(g: set<string>, nodes: seq<NodeUnit>, o: string, nid: nat)
    requires nid < |nodes|
    ensures Readers(g, nodes, o, nid + 1, 0) == Readers(g, nodes, o, nid, |nodes[nid].inputs|)
  {
    var inputs := nodes[nid].inputs;
    assert inputs[..|inputs|] == inputs;
    assert nid + 1 < |nodes| ==> nodes[nid + 1].inputs[..0] == [];
    assert Consumers(nodes, o, nid + 1) + [] == Consumers(nodes, o, nid + 1);
  }

  lemma EdgesNext(g: set<string>, nodes: seq<NodeUnit>, e: NodeEdge, nid: nat)
    requires nid < |nodes| && EdgesAt(g, nodes, e, nid, |nodes[nid].inputs|)
    ensures EdgesAt(g, nodes, e, nid + 1, 0)
  {
    var inputs := nodes[nid].inputs;
    assert inputs[..|inputs|] == inputs;
    forall p, o | p in e && o in e[p] ensures e[p][o] == Readers(g, nodes, o, nid + 1, 0) {
      ReadersNext(g, nodes, o, nid);
    }
  }

  lemma EdgesStart(g: set<string>, nodes: seq<NodeUnit>, e: NodeEdge)
    requires NoReaders(nodes, e)
    ensures EdgesAt(g, nodes, e, 0, 0)
  {
    forall o ensures Readers(g, nodes, o, 0, 0) == [] {
      if |nodes| > 0 { assert nodes[0].inputs[..0] == []; }
    }
  }

  /** GetNodeEdge: for every node the nodes that feed it, for every node the nodes
      it feeds, and for every output the nodes that read it. Fails exactly when
      some input has no source. */
  method GetNodeEdge(g: set<string>, nodes: seq<NodeUnit>, owners: Owners, e0: NodeEdge)
    returns (ok: bool, pre: map<nat, set<nat>>, next: map<nat, set<nat>>, e: NodeEdge)
    requires InputsDistinct(nodes) && OwnersOf(nodes, owners) && NoReaders(nodes, e0)
    ensures ok <==> forall v :: 0 <= v < |nodes| ==> Fed(g, nodes[v].inputs, owners)
    ensures ok ==> pre == PreMap(g, nodes, owners) && Inverse(pre, next)
    ensures ok ==> EdgesAt(g, nodes, e, |nodes|, 0)
  {
    hide OwnersOf, NoReaders, EdgesAt, Feeders, Inverse, Distinct, LinksAt, PreMap, Below;
    pre := map v | v in Below(|nodes|) :: {};
    next := map v | v in Below(|nodes|) :: {};
    e := e0;
    EdgesStart(g, nodes, e);
    LinksStart(g, nodes, owners, pre, next);
    for nid := 0 to |nodes|
      invariant EdgesAt(g, nodes, e, nid, 0) && LinksAt(g, nodes, owners, pre, next, nid, 0)
      invariant forall v :: 0 <= v < nid ==> Fed(g, nodes[v].inputs, owners)
    {
      var inputs := nodes[nid].inputs;
      for t := 0 to |inputs|
        invariant EdgesAt(g, nodes, e, nid, t) && LinksAt(g, nodes, owners, pre, next, nid, t)
        invariant forall i :: 0 <= i < t ==> inputs[i] in g || inputs[i] in owners
      {
        var input := inputs[t];
        if input !in g {
          if input !in owners {
            assert !Fed(g, nodes[nid].inputs, owners);
            return false, pre, next, e;
          }
          var p := owners[input];
          EdgesStep(g, nodes, owners, e, nid, t);
          LinksStep(g, nodes, owners, pre, next, nid, t);
          e := e[p := e[p][input := e[p][input] + [nid]]];
          pre := pre[nid := pre[nid] + {p}];
          next := next[p := next[p] + {nid}];
        } else {
          EdgesStep(g, nodes, owners, e, nid, t);
          LinksStep(g, nodes, owners, pre, next, nid, t);
        }
      }
      EdgesNext(g, nodes, e, nid);
      LinksNext(g, nodes, owners, pre, next, nid);
    }
    LinksEnd(g, nodes, owners, pre, next);
    ok := true;
  }

  lemma LinksStart(g: set<string>, nodes: seq<NodeUnit>, owners: Owners, pre: map<nat, set<nat>>, next: map<nat, set<nat>>)
    requires pre == map v | v in Below(|nodes|) :: {}
    requires next == pre
    ensures LinksAt(g, nodes, owners, pre, next, 0, 0)
  {
    assert pre.Keys == Below(|nodes|);
    assert |nodes| > 0 ==> nodes[0].inputs[..0] == [];
    assert Feeders(g, [], owners) == {};
  }

  lemma LinksStep(g: set<string>, nodes: seq<NodeUnit>, owners: Owners,
                  pre: map<nat, set<nat>>, next: map<nat, set<nat>>, nid: nat, t: nat)
    requires nid < |nodes| && t < |nodes[nid].inputs| && OwnersOf(nodes, owners)
    requires LinksAt(g, nodes, owners, pre, next, nid, t)
    requires nodes[nid].inputs[t] in g || nodes[nid].inputs[t] in owners
    ensures var input := nodes[nid].inputs[t];
            if input in g then LinksAt(g, nodes, owners, pre, next, nid, t + 1)
            else var p := owners[input];
                 nid in pre && p in next &&
                 LinksAt(g, nodes, owners, pre[nid := pre[nid] + {p}], next[p := next[p] + {nid}], nid, t + 1)
  {
    hide Feeders, Inverse;
    FeedersStep(g, nodes[nid].inputs, owners, t);
    var input := nodes[nid].inputs[t];
    if input !in g {
      LinkBoth(pre, next, owners[input], nid);
    }
  }

  lemma LinksNext(g: set<string>, nodes: seq<NodeUnit>, owners: Owners,
                  pre: map<nat, set<nat>>, next: map<nat, set<nat>>, nid: nat)
    requires nid < |nodes| && LinksAt(g, nodes, owners, pre, next, nid, |nodes[nid].inputs|)
    ensures LinksAt(g, nodes, owners, pre, next, nid + 1, 0)
  {
    hide Inverse;
    assert nodes[nid].inputs[..|nodes[nid].inputs|] == nodes[nid].inputs;
    if nid + 1 < |nodes| {
      assert nodes[nid + 1].inputs[..0] == [];
      assert Feeders(g, [], owners) == {};
    }
  }

  lemma LinksEnd(g: set<string>, nodes: seq<NodeUnit>, owners: Owners, pre: map<nat, set<nat>>, next: map<nat, set<nat>>)
    requires LinksAt(g, nodes, owners, pre, next, |nodes|, 0)
    ensures pre == PreMap(g, nodes, owners) && Inverse(pre, next)
  {
    hide Feeders;
    assert forall v :: v in pre ==> v < |nodes|;
  }

  /** GraphUnit.GetNodeEdge accepts exactly the configurations in which names do
      not repeat, everything is fed and there is no loop. It returns the readers of
      every output and an order in which every edge points forward. */
  method BuildGraph(gu: GraphUnit) returns (r: Outcome, ghost owners: Owners)
    ensures r.Accepted? <==> exists w :: Acceptable(gu, w)
    ensures r.Accepted? ==> Acceptable(gu, owners) && EdgesAt(Elements(gu.inputs), gu.nodes, r.nodeEdge, |gu.nodes|, 0)
    ensures r.Accepted? ==> Distinct(r.order) && (forall v: nat :: v in r.order <==> v < |gu.nodes|)
                            && Forward(PreMap(Elements(gu.inputs), gu.nodes, owners), r.order)
  {
    hide OwnersOf, NoReaders, EdgesAt, Feeders, Inverse, Distinct, Acyclic, Forward, InputsDistinct, OutputsDistinct;
    var g := Elements(gu.inputs);
    var check, own, e := CollectOutputs(gu.nodes);
    owners := own;
    if check.Fail? {
      return Rejected(check.fault), owners;
    }
    forall w | OwnersOf(gu.nodes, w) ensures w == own { OwnersUnique(gu.nodes, w, own); }
    for i := 0 to |gu.outputs|
      invariant forall k :: 0 <= k < i ==> gu.outputs[k] in own
    {
      if gu.outputs[i] !in own {
        assert gu.outputs[i] in gu.outputs;
        return Rejected(GraphOutputUnfed), owners;
      }
    }
    var ok, pre, next, e' := GetNodeEdge(g, gu.nodes, own, e);
    if !ok {
      return Rejected(InputUnfed), owners;
    }
    var order, loop := IsExistLoop(pre, next);
    if loop {
      return Rejected(HasLoop), owners;
    }
    assert Acceptable(gu, owners);
    r := Accepted(e', order);
  }

  lemma OwnersUnique(nodes: seq<NodeUnit>, a: Owners, b: Owners)
    requires OwnersOf(nodes, a) && OwnersOf(nodes, b)
    ensures a == b
  {
    assert forall o :: o in a ==> o in b && a[o] == b[o];
    assert forall o :: o in b ==> o in a;
  }

  // Node v, once for each of its first t inputs of that name.
  function MentionsIn(inputs: seq<string>, name: string, v: nat, t: nat): seq<nat>
    requires t <= |inputs|
  {
    if t == 0 then [] else MentionsIn(inputs, name, v, t - 1) + if inputs[t - 1] == name then [v] else []
  }

  // The same for the nodes below k, in order.
  function Mentions(nodes: seq<NodeUnit>, name: string, k: nat): seq<nat>
    requires k <= |nodes|
  {
    if k == 0 then []
    else Mentions(nodes, name, k - 1) + MentionsIn(nodes[k - 1].inputs, name, k - 1, |nodes[k - 1].inputs|)
  }

  // The lists once the nodes below nid and t inputs of nid are done.
  ghost predicate SourcesAt(gu: GraphUnit, source: map<string, seq<nat>>, nid: nat, t: nat)
    requires nid < |gu.nodes| && t <= |gu.nodes[nid].inputs|
  {
    forall name :: name in source ==>
      source[name] == Mentions(gu.nodes, name, nid) + MentionsIn(gu.nodes[nid].inputs, name, nid, t)
  }

  lemma SourcesStep(gu: GraphUnit, source: map<string, seq<nat>>, nid: nat, t: nat)
    requires nid < |gu.nodes| && t < |gu.nodes[nid].inputs| && SourcesAt(gu, source, nid, t)
    ensures var input := gu.nodes[nid].inputs[t];
            SourcesAt(gu, if input in source then source[input := source[input] + [nid]] else source, nid, t + 1)
  {
    hide Mentions;
  }

  /** GetSourceEdge: for every graph input the nodes that read it, a node once for
      each time it lists the input. */
  method GetSourceEdge(gu: GraphUnit) returns (sourceEdge: map<string, seq<nat>>)
    ensures forall name :: name in sourceEdge <==> name in gu.inputs
    ensures forall name :: name in sourceEdge ==> sourceEdge[name] == Mentions(gu.nodes, name, |gu.nodes|)
  {
    hide MentionsIn;
    sourceEdge := map name | name in gu.inputs :: [];
    for nid := 0 to |gu.nodes|
      invariant forall name :: name in sourceEdge <==> name in gu.inputs
      invariant forall name :: name in sourceEdge ==> sourceEdge[name] == Mentions(gu.nodes, name, nid)
    {
      hide Mentions, SourcesAt;
      var inputs := gu.nodes[nid].inputs;
      SourcesBegin(gu, sourceEdge, nid);
      for t := 0 to |inputs|
        invariant forall name :: name in sourceEdge <==> name in gu.inputs
        invariant SourcesAt(gu, sourceEdge, nid, t)
      {
        SourcesStep(gu, sourceEdge, nid, t);
        if inputs[t] in sourceEdge {
          sourceEdge := sourceEdge[inputs[t] := sourceEdge[inputs[t]] + [nid]];
        }
      }
      SourcesDone(gu, sourceEdge, nid);
    }
  }

  lemma SourcesBegin(gu: GraphUnit, source: map<string, seq<nat>>, nid: nat)
    requires nid < |gu.nodes| && forall name :: name in source ==> source[name] == Mentions(gu.nodes, name, nid)
    ensures SourcesAt(gu, source, nid, 0)
  {
    hide Mentions;
  }

  lemma SourcesDone(gu: GraphUnit, source: map<string, seq<nat>>, nid: nat)
    requires nid < |gu.nodes| && SourcesAt(gu, source, nid, |gu.nodes[nid].inputs|)
    ensures forall name :: name in source ==> source[name] == Mentions(gu.nodes, name, nid + 1)
  {
    hide MentionsIn;
  }

  lemma {:induction false} MentionsOnce(inputs: seq<string>, name: string, v: nat, t: nat)
    requires t <= |inputs| && Distinct(inputs)
    ensures MentionsIn(inputs, name, v, t) == if name in inputs[..t] then [v] else []
  {
    if t > 0 {
      MentionsOnce(inputs, name, v, t - 1);
      assert inputs[..t] == inputs[..t - 1] + [inputs[t - 1]];
    }
  }

  // Where no node repeats an input, as in every accepted configuration, each reader
  // is named once.
  lemma {:induction false} MentionsAreConsumers(nodes: seq<NodeUnit>, name: string, k: nat)
    requires k <= |nodes| && InputsDistinct(nodes)
    ensures Mentions(nodes, name, k) == Consumers(nodes, name, k)
  {
    hide MentionsIn, Distinct;
    if k > 0 {
      var inputs := nodes[k - 1].inputs;
      assert Distinct(inputs);
      MentionsAreConsumers(nodes, name, k - 1);
      MentionsOnce(inputs, name, k - 1, |inputs|);
      assert inputs[..|inputs|] == inputs;
    }
  }

  // ---------- every input has one feeder ----------

  lemma {:induction false} ConsumersAre(nodes: seq<NodeUnit>, name: string, k: nat)
    requires k <= |nodes|
    ensures forall i, j :: 0 <= i < j < |Consumers(nodes, name, k)| ==> Consumers(nodes, name, k)[i] < Consumers(nodes, name, k)[j]
    ensures Distinct(Consumers(nodes, name, k))
    ensures forall v :: v in Consumers(nodes, name, k) <==> 0 <= v < k && name in nodes[v].inputs
  {
    if k > 0 {
      ConsumersAre(nodes, name, k - 1);
      var c := Consumers(nodes, name, k - 1);
      assert forall i :: 0 <= i < |c| ==> c[i] in c;
    }
  }

  /** In an accepted configuration the node inputs split between the graph's
      sources and its nodes: a reader list of a graph input or of a node's output
      names the node once, and no second list of that stream does. */
  lemma OneFeeder(gu: GraphUnit, owners: Owners, e: NodeEdge, source: map<string, seq<nat>>, v: nat, name: string)
    requires Acceptable(gu, owners) && EdgesAt(Elements(gu.inputs), gu.nodes, e, |gu.nodes|, 0)
    requires forall x :: x in source <==> x in gu.inputs
    requires forall x :: x in source ==> source[x] == Mentions(gu.nodes, x, |gu.nodes|)
    requires v < |gu.nodes| && name in gu.nodes[v].inputs
    ensures name in gu.inputs ==> v in source[name] && Distinct(source[name])
    ensures name in gu.inputs ==> forall p :: p in e && name in e[p] ==> v !in e[p][name]
    ensures name !in gu.inputs ==> name !in source && name in owners
    ensures name !in gu.inputs ==> forall p :: p in e && name in e[p] <==> p == owners[name]
    ensures name !in gu.inputs ==> owners[name] in e && name in e[owners[name]]
                                   && v in e[owners[name]][name] && Distinct(e[owners[name]][name])
  {
    hide Acyclic, InputsDistinct, OutputsDistinct, EdgesAt, Consumers, Mentions;
    ConsumersAre(gu.nodes, name, |gu.nodes|);
    MentionsAreConsumers(gu.nodes, name, |gu.nodes|);
    if name in gu.inputs {
      forall p | p in e && name in e[p] ensures v !in e[p][name] {
        ReadersOf(gu, e, p, name);
      }
    } else {
      assert Fed(Elements(gu.inputs), gu.nodes[v].inputs, owners);
      var i :| 0 <= i < |gu.nodes[v].inputs| && gu.nodes[v].inputs[i] == name;
      assert name in owners;
      var q := owners[name];
      forall p ensures p in e && name in e[p] <==> p == q {
        KeysOf(gu, e, p, name);
      }
      ReadersOf(gu, e, q, name);
    }
  }

  lemma ReadersOf(gu: GraphUnit, e: NodeEdge, p: nat, name: string)
    requires EdgesAt(Elements(gu.inputs), gu.nodes, e, |gu.nodes|, 0) && p in e && name in e[p]
    ensures e[p][name] == if name in gu.inputs then [] else Consumers(gu.nodes, name, |gu.nodes|)
  {
    hide Consumers;
    assert e[p][name] == Readers(Elements(gu.inputs), gu.nodes, name, |gu.nodes|, 0);
    assert name in Elements(gu.inputs) <==> name in gu.inputs;
    assert Consumers(gu.nodes, name, |gu.nodes|) + [] == Consumers(gu.nodes, name, |gu.nodes|);
  }

  lemma KeysOf(gu: GraphUnit, e: NodeEdge, p: nat, name: string)
    requires EdgesAt(Elements(gu.inputs), gu.nodes, e, |gu.nodes|, 0)
    ensures p in e && name in e[p] <==> p < |gu.nodes| && name in gu.nodes[p].outputs
  {
  }

  /** The predecessors of a node are exactly the nodes with an output that it reads and
      that is not a graph input. */
  lemma PredecessorsAre(g: set<string>, nodes: seq<NodeUnit>, owners: Owners, u: nat, v: nat)
    requires OwnersOf(nodes, owners) && u < |nodes| && v < |nodes|
    ensures v in PreMap(g, nodes, owners)
    ensures u in PreMap(g, nodes, owners)[v] <==>
            exists o :: o in nodes[v].inputs && o in nodes[u].outputs && o !in g
  {
    if o: string :| o in nodes[v].inputs && o in nodes[u].outputs && o !in g {
      var i :| 0 <= i < |nodes[v].inputs| && nodes[v].inputs[i] == o;
      assert owners[nodes[v].inputs[i]] == u;
    }
  }

  // A node is listed as often as it names the stream, and the list ascends.
  lemma {:induction false} MentionsAre(nodes: seq<NodeUnit>, name: string, k: nat, v: nat)
    requires k <= |nodes|
    ensures multiset(Mentions(nodes, name, k))[v] == if v < k then multiset(nodes[v].inputs)[name] else 0
    ensures forall i, j :: 0 <= i < j < |Mentions(nodes, name, k)| ==> Mentions(nodes, name, k)[i] <= Mentions(nodes, name, k)[j] < k
    ensures forall i :: 0 <= i < |Mentions(nodes, name, k)| ==> Mentions(nodes, name, k)[i] < k
  {
    hide MentionsIn;
    if k > 0 {
      var inputs := nodes[k - 1].inputs;
      MentionsAre(nodes, name, k - 1, v);
      MentionsInAre(inputs, name, k - 1, |inputs|, v);
      assert inputs[..|inputs|] == inputs;
    }
  }

  lemma MentionsInAre(inputs: seq<string>, name: string, w: nat, t: nat, v: nat)
    requires t <= |inputs|
    ensures multiset(MentionsIn(inputs, name, w, t))[v] == if v == w then multiset(inputs[..t])[name] else 0
    ensures forall i :: 0 <= i < |MentionsIn(inputs, name, w, t)| ==> MentionsIn(inputs, name, w, t)[i] == w
  {
    hide MentionsIn;
    MentionsInAll(inputs, name, w, t);
    CountConstant(MentionsIn(inputs, name, w, t), w, v);
  }

  lemma {:induction false} MentionsInAll(inputs: seq<string>, name: string, w: nat, t: nat)
    requires t <= |inputs|
    ensures |MentionsIn(inputs, name, w, t)| == multiset(inputs[..t])[name]
    ensures forall i :: 0 <= i < |MentionsIn(inputs, name, w, t)| ==> MentionsIn(inputs, name, w, t)[i] == w
  {
    if t > 0 {
      MentionsInAll(inputs, name, w, t - 1);
      assert inputs[..t] == inputs[..t - 1] + [inputs[t - 1]];
    }
  }

  lemma {:induction false} CountConstant(s: seq<nat>, w: nat, v: nat)
    requires forall i :: 0 <= i < |s| ==> s[i] == w
    ensures multiset(s)[v] == if v == w then |s| else 0
  {
    if s != [] {
      CountConstant(s[..|s| - 1], w, v);
      assert s == s[..|s| - 1] + [s[|s| - 1]];
    }
  }
}
