/**
 dni/framework/graph_config.cc: the streams of a parsed graph, in declaration
 order. An input takes as its upstream the latest output of that name declared so
 far, its own node's outputs included, and makes the node of that output its
 predecessor.
 */
module GraphConfig {
  import opened Counting
  import opened GraphRun
  import opened NodeNames

  datatype NodeConf = NodeConf(name: string, inputs: seq<string>, outputs: seq<string>)

  datatype NodeRef = TaskRef(index: nat) | GraphInput(index: nat)

  datatype EdgeInfo = EdgeInfo(name: string, parent: NodeRef, upstream: int)

  // The nodes of a configuration file under their canonical names.
  function Named(protos: seq<NodeProto>): (nodes: seq<NodeConf>)
    ensures |nodes| == |protos|
    ensures forall v :: 0 <= v < |nodes| ==>
              nodes[v] == NodeConf(Canonical(Bases(protos), v), protos[v].inputs, protos[v].outputs)
  {
    seq(|protos|, v requires 0 <= v < |protos| =>
      NodeConf(Canonical(Bases(protos), v), protos[v].inputs, protos[v].outputs))
  }

  method InitializeNodes(protos: seq<NodeProto>) returns (nodes: seq<NodeConf>)
    ensures nodes == Named(protos)
  {
    hide Canonical;
    nodes := [];
    for v := 0 to |protos|
      invariant nodes == Named(protos)[..v]
    {
      var name := CanonicalNodeName(protos, v);
      nodes := nodes + [NodeConf(name, protos[v].inputs, protos[v].outputs)];
    }
  }

  // ---------- the streams a configuration stands for ----------

  function GraphInputEdges(gin: seq<string>, n: nat): seq<EdgeInfo> {
    seq(|gin|, i requires 0 <= i < |gin| => EdgeInfo(gin[i], GraphInput(i + n), -1))
  }

  // The first t outputs of node v.
  function NodeOut(node: NodeConf, v: nat, t: nat): seq<EdgeInfo>
    requires t <= |node.outputs|
  {
    seq(t, i requires 0 <= i < t => EdgeInfo(node.outputs[i], TaskRef(v), -1))
  }

  // The output streams once k nodes are declared, graph inputs first.
  function OutEdges(gin: seq<string>, nodes: seq<NodeConf>, k: nat): seq<EdgeInfo>
    requires k <= |nodes|
  {
    if k == 0 then GraphInputEdges(gin, |nodes|)
    else OutEdges(gin, nodes, k - 1) + NodeOut(nodes[k - 1], k - 1, |nodes[k - 1].outputs|)
  }

  // The latest stream of a name, or -1.
  function LastIndex(out: seq<EdgeInfo>, name: string): (i: int)
    ensures -1 <= i < |out|
    ensures i >= 0 ==> out[i].name == name
    ensures forall j :: i < j < |out| ==> out[j].name != name
  {
    if out == [] then -1
    else if out[|out| - 1].name == name then |out| - 1
    else LastIndex(out[..|out| - 1], name)
  }

  // The first t inputs of node v, linked to the outputs declared so far.
  function NodeIn(out: seq<EdgeInfo>, node: NodeConf, v: nat, t: nat): seq<EdgeInfo>
    requires t <= |node.inputs|
  {
    seq(t, i requires 0 <= i < t => EdgeInfo(node.inputs[i], TaskRef(v), LastIndex(out, node.inputs[i])))
  }

  function InEdges(gin: seq<string>, nodes: seq<NodeConf>, k: nat): seq<EdgeInfo>
    requires k <= |nodes|
  {
    if k == 0 then []
    else InEdges(gin, nodes, k - 1) + NodeIn(OutEdges(gin, nodes, k), nodes[k - 1], k - 1, |nodes[k - 1].inputs|)
  }

  // The nodes that feed the first t inputs of a node, by name.
  function Preds(nodes: seq<NodeConf>, out: seq<EdgeInfo>, inputs: seq<string>, t: nat): set<string>
    requires t <= |inputs|
  {
    if t == 0 then {}
    else
      var u := LastIndex(out, inputs[t - 1]);
      Preds(nodes, out, inputs, t - 1) +
      if u >= 0 && out[u].parent.TaskRef? && out[u].parent.index < |nodes| then {nodes[out[u].parent.index].name} else {}
  }

  function PredecessorsOf(gin: seq<string>, nodes: seq<NodeConf>, v: nat): set<string>
    requires v < |nodes|
  {
    Preds(nodes, OutEdges(gin, nodes, v + 1), nodes[v].inputs, |nodes[v].inputs|)
  }

  // ---------- where each stream stands ----------

  /** Output i of node v stands i places after the node's base, under its own name. */
  lemma {:induction false} OutputAtBase(gin: seq<string>, nodes: seq<NodeConf>, k: nat, v: nat, i: nat)
    requires v < k <= |nodes| && i < |nodes[v].outputs|
    ensures |OutEdges(gin, nodes, v)| + i < |OutEdges(gin, nodes, k)|
    ensures OutEdges(gin, nodes, k)[|OutEdges(gin, nodes, v)| + i] == EdgeInfo(nodes[v].outputs[i], TaskRef(v), -1)
    decreases k
  {
    if v + 1 < k {
      OutputAtBase(gin, nodes, k - 1, v, i);
    }
  }

  /** Graph input i is output stream i. */
  lemma {:induction false} GraphInputAt(gin: seq<string>, nodes: seq<NodeConf>, k: nat, i: nat)
    requires k <= |nodes| && i < |gin|
    ensures i < |OutEdges(gin, nodes, k)|
    ensures OutEdges(gin, nodes, k)[i] == EdgeInfo(gin[i], GraphInput(i + |nodes|), -1)
    decreases k
  {
    if k > 0 {
      GraphInputAt(gin, nodes, k - 1, i);
    }
  }

  /** Input i of node v stands i places after the node's base, under its own name, and
      hangs on the latest output of that name among the nodes up to v. */
  lemma {:induction false} InputAtBase(gin: seq<string>, nodes: seq<NodeConf>, k: nat, v: nat, i: nat)
    requires v < k <= |nodes| && i < |nodes[v].inputs|
    ensures |InEdges(gin, nodes, v)| + i < |InEdges(gin, nodes, k)|
    ensures var e := InEdges(gin, nodes, k)[|InEdges(gin, nodes, v)| + i];
            && e.name == nodes[v].inputs[i] && e.parent == TaskRef(v)
            && e.upstream == LastIndex(OutEdges(gin, nodes, v + 1), nodes[v].inputs[i])
    decreases k
  {
    hide OutEdges, LastIndex;
    if v + 1 < k {
      InputAtBase(gin, nodes, k - 1, v, i);
    }
  }

  // There are no other streams.
  lemma {:induction false} BasesAdvance(gin: seq<string>, nodes: seq<NodeConf>, v: nat)
    requires v < |nodes|
    ensures |OutEdges(gin, nodes, v + 1)| == |OutEdges(gin, nodes, v)| + |nodes[v].outputs|
    ensures |InEdges(gin, nodes, v + 1)| == |InEdges(gin, nodes, v)| + |nodes[v].inputs|
    ensures |OutEdges(gin, nodes, 0)| == |gin| && |InEdges(gin, nodes, 0)| == 0
  {
  }

  // ---------- the two lookup maps ----------

  ghost predicate IndexOk(out: seq<EdgeInfo>, m: map<string, nat>) {
    forall name :: (name in m <==> LastIndex(out, name) >= 0) && (name in m ==> m[name] == LastIndex(out, name))
  }

  ghost predicate OwnersOk(nodes: seq<NodeConf>, out: seq<EdgeInfo>, m: map<string, string>) {
    && (forall i :: 0 <= i < |out| && out[i].parent.TaskRef? ==> out[i].parent.index < |nodes|)
    && forall name ::
         var u := LastIndex(out, name);
         && (name in m <==> u >= 0 && out[u].parent.TaskRef?)
         && (name in m ==> m[name] == nodes[out[u].parent.index].name)
  }

  lemma IndexStep(out: seq<EdgeInfo>, m: map<string, nat>, e: EdgeInfo)
    requires IndexOk(out, m)
    ensures IndexOk(out + [e], m[e.name := |out|])
  {
  }

  lemma OwnersStep(nodes: seq<NodeConf>, out: seq<EdgeInfo>, m: map<string, string>, e: EdgeInfo)
    requires OwnersOk(nodes, out, m) && (e.parent.TaskRef? ==> e.parent.index < |nodes|)
    requires !e.parent.TaskRef? ==> m == map[]
    ensures OwnersOk(nodes, out + [e], if e.parent.TaskRef? then m[e.name := nodes[e.parent.index].name] else m)
  {
  }

  // ---------- the parser ----------

  class ParsedGraphConfig {
    const nodes: seq<NodeConf>
    var outputStreams: seq<EdgeInfo>
    var inputStreams: seq<EdgeInfo>
    var toIndex: map<string, nat>
    var toNode: map<string, string>
    var outBase: seq<nat>
    var inBase: seq<nat>
    var predecessors: seq<set<string>>

    constructor (nodes: seq<NodeConf>)
      ensures this.nodes == nodes && outputStreams == [] && inputStreams == [] && toIndex == map[] && toNode == map[]
      ensures outBase == [] && inBase == [] && predecessors == []
    {
      this.nodes := nodes;
      outputStreams, inputStreams, toIndex, toNode := [], [], map[], map[];
      outBase, inBase, predecessors := [], [], [];
    }

    // The first k nodes have been declared.
    ghost predicate Built(gin: seq<string>, k: nat)
      requires k <= |nodes|
      reads this
    {
      && outputStreams == OutEdges(gin, nodes, k) && inputStreams == InEdges(gin, nodes, k)
      && IndexOk(outputStreams, toIndex) && OwnersOk(nodes, outputStreams, toNode)
      && |outBase| == |inBase| == |predecessors| == k
      && (forall v :: 0 <= v < k ==> outBase[v] == |OutEdges(gin, nodes, v)| && inBase[v] == |InEdges(gin, nodes, v)|)
      && (forall v :: 0 <= v < k ==> predecessors[v] == PredecessorsOf(gin, nodes, v))
    }

    method InitializeNodeStreams(v: nat, ghost gin: seq<string>)
      requires v < |nodes| && Built(gin, v)
      modifies this
      ensures Built(gin, v + 1)
    {
      hide IndexOk, OwnersOk, LastIndex, Preds;
      var node := nodes[v];
      ghost var before := outputStreams;
      outBase := outBase + [|outputStreams|];
      for t := 0 to |node.outputs|
        invariant outputStreams == before + NodeOut(node, v, t)
        invariant IndexOk(outputStreams, toIndex) && OwnersOk(nodes, outputStreams, toNode)
        invariant inputStreams == old(inputStreams) && inBase == old(inBase) && predecessors == old(predecessors)
        invariant outBase == old(outBase) + [|before|]
      {
        var e := EdgeInfo(node.outputs[t], TaskRef(v), -1);
        IndexStep(outputStreams, toIndex, e);
        OwnersStep(nodes, outputStreams, toNode, e);
        assert NodeOut(node, v, t + 1) == NodeOut(node, v, t) + [e];
        toIndex := toIndex[e.name := |outputStreams|];
        toNode := toNode[e.name := node.name];
        outputStreams := outputStreams + [e];
      }
      ghost var out := outputStreams;
      ghost var ins := inputStreams;
      inBase := inBase + [|inputStreams|];
      var preds: set<string> := {};
      assert Preds(nodes, out, node.inputs, 0) == {} by { NoPreds(nodes, out, node.inputs); }
      for t := 0 to |node.inputs|
        invariant inputStreams == ins + NodeIn(out, node, v, t)
        invariant preds == Preds(nodes, out, node.inputs, t)
        invariant outputStreams == out && IndexOk(out, toIndex) && OwnersOk(nodes, out, toNode)
        invariant outBase == old(outBase) + [|before|] && inBase == old(inBase) + [|ins|]
        invariant predecessors == old(predecessors)
      {
        var name := node.inputs[t];
        Lookup(nodes, out, toIndex, toNode, name);
        PredsStep(nodes, out, node.inputs, t);
        var upstream: int := -1;
        if name in toIndex {
          upstream := toIndex[name];
          if name in toNode {
            preds := preds + {toNode[name]};
          }
        }
        assert NodeIn(out, node, v, t + 1) == NodeIn(out, node, v, t) + [EdgeInfo(name, TaskRef(v), upstream)];
        inputStreams := inputStreams + [EdgeInfo(name, TaskRef(v), upstream)];
      }
      predecessors := predecessors + [preds];
    }

    /** The whole configuration: streams, base indices, upstream links and
        predecessor sets as the functions above define them. */
    method InitializeStreams(gin: seq<string>)
      requires outputStreams == [] && inputStreams == [] && toIndex == map[] && toNode == map[]
      requires outBase == [] && inBase == [] && predecessors == []
      modifies this
      ensures Built(gin, |nodes|)
      ensures |outBase| == |inBase| == |nodes| && |gin| <= |outputStreams|
      ensures forall i :: 0 <= i < |gin| ==> outputStreams[i].name == gin[i] && outputStreams[i].parent.GraphInput?
      ensures forall v, i :: 0 <= v < |nodes| && 0 <= i < |nodes[v].outputs| ==> OutputPlaced(v, i)
      ensures forall v, i :: 0 <= v < |nodes| && 0 <= i < |nodes[v].inputs| ==> InputPlaced(v, i)
    {
      hide IndexOk, OwnersOk;
      assert IndexOk([], map[]) && OwnersOk(nodes, [], map[]) by { NothingDeclared(nodes); }
      for i := 0 to |gin|
        invariant outputStreams == GraphInputEdges(gin, |nodes|)[..i]
        invariant IndexOk(outputStreams, toIndex) && OwnersOk(nodes, outputStreams, toNode)
        invariant toNode == map[] && inputStreams == [] && outBase == [] && inBase == [] && predecessors == []
      {
        var e := EdgeInfo(gin[i], GraphInput(i + |nodes|), -1);
        IndexStep(outputStreams, toIndex, e);
        OwnersStep(nodes, outputStreams, toNode, e);
        toIndex := toIndex[e.name := |outputStreams|];
        outputStreams := outputStreams + [e];
      }
      for v := 0 to |nodes|
        invariant Built(gin, v)
      {
        InitializeNodeStreams(v, gin);
      }
      Layout(gin);
    }

    // Output i of node v is the i-th stream from the node's base, under its own name.
    ghost predicate OutputPlaced(v: nat, i: nat)
      requires v < |nodes| && i < |nodes[v].outputs|
      reads this
    {
      && v < |outBase| && outBase[v] + i < |outputStreams|
      && outputStreams[outBase[v] + i].name == nodes[v].outputs[i] && outputStreams[outBase[v] + i].parent == TaskRef(v)
    }

    ghost predicate InputPlaced(v: nat, i: nat)
      requires v < |nodes| && i < |nodes[v].inputs|
      reads this
    {
      && v < |inBase| && inBase[v] + i < |inputStreams|
      && inputStreams[inBase[v] + i].name == nodes[v].inputs[i] && inputStreams[inBase[v] + i].parent == TaskRef(v)
    }

    // Where the streams of a finished configuration stand.
    lemma Layout(gin: seq<string>)
      requires Built(gin, |nodes|)
      ensures |outBase| == |inBase| == |nodes| && |gin| <= |outputStreams|
      ensures forall i :: 0 <= i < |gin| ==> outputStreams[i].name == gin[i] && outputStreams[i].parent.GraphInput?
      ensures forall v, i :: 0 <= v < |nodes| && 0 <= i < |nodes[v].outputs| ==> OutputPlaced(v, i)
      ensures forall v, i :: 0 <= v < |nodes| && 0 <= i < |nodes[v].inputs| ==> InputPlaced(v, i)
    {
      hide IndexOk, OwnersOk, OutEdges, InEdges, LastIndex, PredecessorsOf;
      var n := |nodes|;
      if |gin| > 0 {
        GraphInputAt(gin, nodes, n, |gin| - 1);
      }
      forall i | 0 <= i < |gin| ensures i < |outputStreams| && outputStreams[i] == EdgeInfo(gin[i], GraphInput(i + n), -1) {
        GraphInputAt(gin, nodes, n, i);
      }
      forall v, i | 0 <= v < n && 0 <= i < |nodes[v].outputs|
        ensures OutputPlaced(v, i)
      {
        OutputAtBase(gin, nodes, n, v, i);
      }
      forall v, i | 0 <= v < n && 0 <= i < |nodes[v].inputs|
        ensures InputPlaced(v, i)
      {
        InputAtBase(gin, nodes, n, v, i);
      }
    }
  }

  lemma NothingDeclared(nodes: seq<NodeConf>)
    ensures IndexOk([], map[]) && OwnersOk(nodes, [], map[])
  {
  }

  // The maps answer what the streams say.
  lemma Lookup(nodes: seq<NodeConf>, out: seq<EdgeInfo>, toIndex: map<string, nat>, toNode: map<string, string>, name: string)
    requires IndexOk(out, toIndex) && OwnersOk(nodes, out, toNode)
    ensures LastIndex(out, name) == if name in toIndex then toIndex[name] else -1
    ensures var u := LastIndex(out, name);
            && (name in toNode <==> u >= 0 && out[u].parent.TaskRef?)
            && (name in toNode ==> out[u].parent.index < |nodes| && toNode[name] == nodes[out[u].parent.index].name)
  {
  }

  lemma PredsStep(nodes: seq<NodeConf>, out: seq<EdgeInfo>, inputs: seq<string>, t: nat)
    requires t < |inputs|
    ensures var u := LastIndex(out, inputs[t]);
            Preds(nodes, out, inputs, t + 1) == Preds(nodes, out, inputs, t) +
            if u >= 0 && out[u].parent.TaskRef? && out[u].parent.index < |nodes| then {nodes[out[u].parent.index].name} else {}
  {
  }

  lemma NoPreds(nodes: seq<NodeConf>, out: seq<EdgeInfo>, inputs: seq<string>)
    ensures Preds(nodes, out, inputs, 0) == {}
  {
  }

  // ---------- the wiring of the run ----------

  function TaskIndex(r: NodeRef): int { if r.TaskRef? then r.index else -1 }

  // Slots are the node inputs followed by the observed outputs.
  function Wiring(gin: seq<string>, nodes: seq<NodeConf>, observed: seq<nat>): Net {
    var ins, outs, m := InEdges(gin, nodes, |nodes|), OutEdges(gin, nodes, |nodes|), |observed|;
    Net(seq(|ins|, i requires 0 <= i < |ins| => TaskIndex(ins[i].parent)) + seq(m, _ => -1),
        seq(|ins|, i requires 0 <= i < |ins| => ins[i].upstream) + seq(m, i requires 0 <= i < m => observed[i]),
        seq(|outs|, i requires 0 <= i < |outs| => TaskIndex(outs[i].parent)),
        seq(|nodes|, v requires 0 <= v < |nodes| => |OutEdges(gin, nodes, v)|))
  }

  lemma {:induction false} OutPrefix(gin: seq<string>, nodes: seq<NodeConf>, j: nat, k: nat)
    requires j <= k <= |nodes|
    ensures OutEdges(gin, nodes, j) <= OutEdges(gin, nodes, k)
    decreases k
  {
    hide NodeOut, GraphInputEdges;
    if j < k {
      OutPrefix(gin, nodes, j, k - 1);
    }
  }

  // Where an output stream lies tells whose it is.
  lemma {:induction false} OutOwner(gin: seq<string>, nodes: seq<NodeConf>, k: nat, o: nat)
    requires k <= |nodes| && o < |OutEdges(gin, nodes, k)|
    ensures var r := OutEdges(gin, nodes, k)[o].parent;
            r.TaskRef? ==> r.index < k && |OutEdges(gin, nodes, r.index)| <= o
    decreases k
  {
    if k > 0 && o < |OutEdges(gin, nodes, k - 1)| {
      OutOwner(gin, nodes, k - 1, o);
    }
  }

  // An input of node v hangs on the latest output among the nodes up to v.
  lemma {:induction false} InLink(gin: seq<string>, nodes: seq<NodeConf>, k: nat, j: nat) returns (t: nat)
    requires k <= |nodes| && j < |InEdges(gin, nodes, k)|
    ensures var e := InEdges(gin, nodes, k)[j];
            && e.parent.TaskRef? && e.parent.index < k && t < |nodes[e.parent.index].inputs|
            && e.upstream == LastIndex(OutEdges(gin, nodes, e.parent.index + 1), nodes[e.parent.index].inputs[t])
    decreases k
  {
    hide OutEdges, LastIndex;
    if j < |InEdges(gin, nodes, k - 1)| {
      t := InLink(gin, nodes, k - 1, j);
    } else {
      t := j - |InEdges(gin, nodes, k - 1)|;
    }
  }

  lemma WiringOk(gin: seq<string>, nodes: seq<NodeConf>, observed: seq<nat>)
    requires forall i :: 0 <= i < |observed| ==> observed[i] < |OutEdges(gin, nodes, |nodes|)|
    ensures NetOk(Wiring(gin, nodes, observed), |nodes|)
  {
    hide OutEdges, InEdges, LastIndex;
    var n := |nodes|;
    var net := Wiring(gin, nodes, observed);
    var ins, outs := InEdges(gin, nodes, n), OutEdges(gin, nodes, n);
    forall j | 0 <= j < |ins| ensures net.reader[j] < n && -1 <= net.feed[j] < |outs| {
      var t := InLink(gin, nodes, n, j);
      OutPrefix(gin, nodes, ins[j].parent.index + 1, n);
    }
    forall o | 0 <= o < |outs| && net.owner[o] >= 0 ensures net.owner[o] < n && net.outBase[net.owner[o]] <= o {
      OutOwner(gin, nodes, n, o);
    }
  }

  lemma {:induction false} PredIsListed(nodes: seq<NodeConf>, out: seq<EdgeInfo>, inputs: seq<string>, t: nat, i: nat)
    requires i < t <= |inputs|
    requires var u := LastIndex(out, inputs[i]); u >= 0 && out[u].parent.TaskRef? && out[u].parent.index < |nodes|
    ensures nodes[out[LastIndex(out, inputs[i])].parent.index].name in Preds(nodes, out, inputs, t)
    decreases t
  {
    hide LastIndex;
    if i < t - 1 {
      PredIsListed(nodes, out, inputs, t - 1, i);
    }
  }

  /** A node that feeds v is declared no later than v and is one of the
      predecessors of v. */
  lemma FeederIsPredecessor(gin: seq<string>, nodes: seq<NodeConf>, observed: seq<nat>, u: nat, v: nat)
    requires forall i :: 0 <= i < |observed| ==> observed[i] < |OutEdges(gin, nodes, |nodes|)|
    requires NetOk(Wiring(gin, nodes, observed), |nodes|) && u < |nodes| && v < |nodes|
    requires Feeds(Wiring(gin, nodes, observed), u, v)
    ensures u <= v && nodes[u].name in PredecessorsOf(gin, nodes, v)
  {
    hide OutEdges, InEdges, LastIndex, Preds;
    var n := |nodes|;
    var net := Wiring(gin, nodes, observed);
    var ins := InEdges(gin, nodes, n);
    var j :| 0 <= j < |net.reader| && net.reader[j] == v && FeederOf(net, j) == u;
    assert j < |ins| && ins[j].parent == TaskRef(v);
    var t := InLink(gin, nodes, n, j);
    var out := OutEdges(gin, nodes, v + 1);
    OutPrefix(gin, nodes, v + 1, n);
    var o := ins[j].upstream;
    assert out[o] == OutEdges(gin, nodes, n)[o];
    assert TaskIndex(out[o].parent) == u;
    OutOwner(gin, nodes, v + 1, o);
    PredIsListed(nodes, out, nodes[v].inputs, |nodes[v].inputs|, t);
  }

  lemma {:induction false} ListedPred(nodes: seq<NodeConf>, out: seq<EdgeInfo>, inputs: seq<string>, t: nat, name: string) returns (i: nat)
    requires t <= |inputs| && name in Preds(nodes, out, inputs, t)
    ensures i < t
    ensures var u := LastIndex(out, inputs[i]);
            u >= 0 && out[u].parent.TaskRef? && out[u].parent.index < |nodes| && nodes[out[u].parent.index].name == name
    decreases t
  {
    hide LastIndex;
    if name in Preds(nodes, out, inputs, t - 1) {
      i := ListedPred(nodes, out, inputs, t - 1, name);
    } else {
      i := t - 1;
    }
  }

  /** The slot of an input is read by its node and fed by the output it hangs on; the
      observed outputs come after the inputs. */
  lemma WiringAt(gin: seq<string>, nodes: seq<NodeConf>, observed: seq<nat>, v: nat, i: nat)
    requires v < |nodes| && i < |nodes[v].inputs|
    ensures var net, j := Wiring(gin, nodes, observed), |InEdges(gin, nodes, v)| + i;
            && j < |net.reader| == |net.feed| && net.reader[j] == v
            && net.feed[j] == LastIndex(OutEdges(gin, nodes, v + 1), nodes[v].inputs[i])
    ensures forall o :: 0 <= o < |observed| ==>
              var net, j := Wiring(gin, nodes, observed), |InEdges(gin, nodes, |nodes|)| + o;
              j < |net.reader| && net.reader[j] == -1 && net.feed[j] == observed[o]
  {
    hide OutEdges, InEdges, LastIndex;
    InputAtBase(gin, nodes, |nodes|, v, i);
  }

  /** Every predecessor name is the name of a node that feeds v. */
  lemma PredecessorFeeds(gin: seq<string>, nodes: seq<NodeConf>, observed: seq<nat>, v: nat, name: string) returns (u: nat)
    requires forall i :: 0 <= i < |observed| ==> observed[i] < |OutEdges(gin, nodes, |nodes|)|
    requires NetOk(Wiring(gin, nodes, observed), |nodes|) && v < |nodes| && name in PredecessorsOf(gin, nodes, v)
    ensures u <= v && nodes[u].name == name && Feeds(Wiring(gin, nodes, observed), u, v)
  {
    hide OutEdges, InEdges, LastIndex, Preds;
    var net, out := Wiring(gin, nodes, observed), OutEdges(gin, nodes, v + 1);
    var i := ListedPred(nodes, out, nodes[v].inputs, |nodes[v].inputs|, name);
    var o := LastIndex(out, nodes[v].inputs[i]);
    u := out[o].parent.index;
    OutOwner(gin, nodes, v + 1, o);
    OutPrefix(gin, nodes, v + 1, |nodes|);
    WiringAt(gin, nodes, observed, v, i);
    var j := |InEdges(gin, nodes, v)| + i;
    assert net.reader[j] == v && FeederOf(net, j) == u;
  }
}
