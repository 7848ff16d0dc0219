/**
 dni/go/sdk/config/config.go, IsExistLoop: Kahn's algorithm over the predecessor
 and successor maps of a graph on the nodes 0 .. n-1.
 */
module KahnOrder {
  import opened Counting

  // u feeds v.
  ghost predicate Edge(pre: map<nat, set<nat>>, u: nat, v: nat) { v in pre && u in pre[v] }

  // A closed walk along edges.
  ghost predicate IsCycle(pre: map<nat, set<nat>>, c: seq<nat>) {
    && |c| >= 2 && c[0] == c[|c| - 1]
    && forall i :: 0 <= i < |c| - 1 ==> Edge(pre, c[i], c[i + 1])
  }

  ghost predicate Acyclic(pre: map<nat, set<nat>>) { !exists c :: IsCycle(pre, c) }

  // The two maps have the nodes 0 .. n-1 as keys and are inverse to each other.
  ghost predicate Inverse(pre: map<nat, set<nat>>, next: map<nat, set<nat>>) {
    && (forall v: nat :: v in pre <==> v < |pre|)
    && (forall v: nat :: v in next <==> v < |pre|)
    && (forall v, u :: v in pre && u in pre[v] ==> u in next && v in next[u])
    && (forall u, v :: u in next && v in next[u] ==> v in pre && u in pre[v])
  }

  // Every edge points forward: predecessors come earlier in the list.
  ghost predicate Forward(pre: map<nat, set<nat>>, order: seq<nat>) {
    forall j, u :: 0 <= j < |order| && Edge(pre, u, order[j]) ==> u in order[..j]
  }

  // ---------- an order leaves no cycle ----------

  lemma {:induction false} WalkAdvances(pre: map<nat, set<nat>>, order: seq<nat>, c: seq<nat>, k: nat, p: nat)
    requires Distinct(order) && Forward(pre, order)
    requires 0 < k < |c| && forall i :: 0 <= i < k ==> Edge(pre, c[i], c[i + 1])
    requires p < |order| && order[p] == c[k]
    ensures exists q :: 0 <= q < p && order[q] == c[0]
    decreases k
  {
    assert Edge(pre, c[k - 1], order[p]);
    assert c[k - 1] in order[..p];
    var q :| 0 <= q < p && order[q] == c[k - 1];
    if k > 1 {
      WalkAdvances(pre, order, c, k - 1, q);
    }
  }

  lemma OrderMeansAcyclic(pre: map<nat, set<nat>>, order: seq<nat>)
    requires Distinct(order) && Forward(pre, order) && forall v :: v in pre ==> v in order
    ensures Acyclic(pre)
  {
    forall c | IsCycle(pre, c) ensures false {
      var k := |c| - 1;
      assert Edge(pre, c[k - 1], c[k]);
      var p :| 0 <= p < |order| && order[p] == c[k];
      WalkAdvances(pre, order, c, k, p);
    }
  }

  // ---------- a set without a first node holds a cycle ----------

  ghost predicate FedFrom(pre: map<nat, set<nat>>, u: set<nat>, v: nat) {
    exists w :: w in u && Edge(pre, w, v)
  }

  ghost predicate NoFirst(pre: map<nat, set<nat>>, u: set<nat>) {
    forall v :: v in u ==> FedFrom(pre, u, v)
  }

  lemma Predecessor(pre: map<nat, set<nat>>, u: set<nat>, v: nat) returns (w: nat)
    requires FedFrom(pre, u, v)
    ensures w in u && Edge(pre, w, v)
  {
    w :| w in u && Edge(pre, w, v);
  }

  lemma {:induction false} BackWalk(pre: map<nat, set<nat>>, u: set<nat>, k: nat) returns (p: seq<nat>)
    requires u != {} && NoFirst(pre, u)
    ensures |p| == k + 1 && forall i :: 0 <= i < |p| ==> p[i] in u
    ensures forall i :: 0 <= i < |p| - 1 ==> Edge(pre, p[i], p[i + 1])
  {
    hide FedFrom, Edge;
    if k == 0 {
      var v :| v in u;
      p := [v];
    } else {
      var q := BackWalk(pre, u, k - 1);
      var w := Predecessor(pre, u, q[0]);
      p := [w] + q;
      assert forall i :: 0 < i < |p| ==> p[i] == q[i - 1];
    }
  }

  lemma CycleInside(pre: map<nat, set<nat>>, u: set<nat>) returns (c: seq<nat>)
    requires u != {} && NoFirst(pre, u)
    ensures IsCycle(pre, c) && forall i :: 0 <= i < |c| ==> c[i] in u
  {
    hide NoFirst, Edge;
    var p := BackWalk(pre, u, |u|);
    var i, j := Repeats(p, u);
    c := p[i..j + 1];
    assert forall k :: 0 <= k < |c| ==> c[k] == p[i + k];
  }

  // ---------- the loop ----------

  // Taking one more node off the missing predecessors of v.
  lemma OneFewer(s: set<nat>, d: set<nat>, x: nat)
    requires x in s && x !in d
    ensures |s - d| == |s - (d + {x})| + 1
  {
    assert s - d == (s - (d + {x})) + {x};
  }

  lemma NoneFewer(s: set<nat>, d: set<nat>, x: nat)
    requires x !in s
    ensures |s - d| == |s - (d + {x})|
  {
    assert s - d == s - (d + {x});
  }

  // The nodes whose count is zero are those listed, once each.
  ghost predicate Queued(pre: map<nat, set<nat>>, count: seq<int>, listed: seq<nat>) {
    && Distinct(listed) && |count| == |pre|
    && (forall i :: 0 <= i < |listed| ==> listed[i] < |count|)
    && forall v: nat :: v < |count| ==> (count[v] == 0 <==> v in listed)
  }

  // The count of a node is the number of its predecessors outside d.
  ghost predicate Counts(pre: map<nat, set<nat>>, count: seq<int>, d: set<nat>) {
    |count| == |pre| && forall v: nat :: v < |count| ==> v in pre && count[v] == |pre[v] - d|
  }

  // In the middle of the inner loop: `node` has left the successors outside todo.
  ghost predicate Halfway(pre: map<nat, set<nat>>, count: seq<int>, d: set<nat>, node: nat, todo: set<nat>) {
    |count| == |pre| && forall v: nat :: v < |count| ==>
      v in pre && count[v] == if v in todo then |pre[v] - d| else |pre[v] - (d + {node})|
  }

  lemma InnerStart(pre: map<nat, set<nat>>, next: map<nat, set<nat>>, count: seq<int>, d: set<nat>, node: nat)
    requires Inverse(pre, next) && Counts(pre, count, d) && node in next
    ensures Halfway(pre, count, d, node, next[node])
  {
    forall v: nat | v < |count| && v !in next[node] ensures count[v] == |pre[v] - (d + {node})| {
      NoneFewer(pre[v], d, node);
    }
  }

  // One successor loses its predecessor `node`, and is listed if that was the last.
  lemma InnerStep(pre: map<nat, set<nat>>, next: map<nat, set<nat>>, count: seq<int>, listed: seq<nat>,
                  d: set<nat>, node: nat, todo: set<nat>, v: nat)
    requires Inverse(pre, next) && Halfway(pre, count, d, node, todo) && Queued(pre, count, listed)
    requires node in next && node !in d && todo <= next[node] && v in todo
    ensures v < |count|
    ensures var after := count[v := count[v] - 1];
            && Halfway(pre, after, d, node, todo - {v})
            && Queued(pre, after, if after[v] == 0 then listed + [v] else listed)
  {
    hide Inverse, Queued;
    InverseBack(pre, next, node, v);
    OneFewer(pre[v], d, node);
    QueuedStep(pre, count, listed, v);
  }

  lemma QueuedStep(pre: map<nat, set<nat>>, count: seq<int>, listed: seq<nat>, v: nat)
    requires Queued(pre, count, listed) && v < |count| && count[v] >= 1
    ensures var after := count[v := count[v] - 1];
            Queued(pre, after, if after[v] == 0 then listed + [v] else listed)
  {
  }

  lemma InverseBack(pre: map<nat, set<nat>>, next: map<nat, set<nat>>, u: nat, v: nat)
    requires Inverse(pre, next) && u in next && v in next[u]
    ensures v < |pre| && v in pre && u in pre[v]
  {
  }

  lemma Popped(pre: map<nat, set<nat>>, count: seq<int>, sorted: seq<nat>, rest: seq<nat>, node: nat)
    requires Counts(pre, count, Elements(sorted)) && Queued(pre, count, sorted + ([node] + rest))
    requires Forward(pre, sorted)
    ensures node < |pre| && node !in Elements(sorted) && Forward(pre, sorted + [node])
    ensures |sorted| < |pre| && Elements(sorted + [node]) == Elements(sorted) + {node}
  {
    var listed := sorted + ([node] + rest);
    assert listed[|sorted|] == node;
    assert node in listed && count[node] == 0;
    assert |pre[node] - Elements(sorted)| == 0;
    assert node !in sorted by { assert forall i :: 0 <= i < |sorted| ==> listed[i] == sorted[i]; }
    var order := sorted + [node];
    forall j, u | 0 <= j < |order| && Edge(pre, u, order[j]) ensures u in order[..j] {
      if j < |sorted| {
        assert order[..j] == sorted[..j];
      } else {
        assert order[..j] == sorted && order[j] == node && u in pre[node];
        assert u !in pre[node] - Elements(sorted);
      }
    }
    assert listed[..|sorted| + 1] == order;
    Pigeonhole(order, |pre|);
  }

  lemma Finished(pre: map<nat, set<nat>>, next: map<nat, set<nat>>, count: seq<int>, sorted: seq<nat>)
    requires Inverse(pre, next) && Counts(pre, count, Elements(sorted))
    requires Queued(pre, count, sorted) && Forward(pre, sorted)
    ensures |sorted| == |pre| ==> Acyclic(pre) && forall v :: v in sorted <==> v in pre
    ensures |sorted| != |pre| ==> exists c :: IsCycle(pre, c) && forall i :: 0 <= i < |c| ==> c[i] !in sorted
  {
    hide Acyclic, IsCycle, NoFirst;
    var n := |pre|;
    DistinctSize(sorted);
    var u := Below(n) - Elements(sorted);
    assert Elements(sorted) <= Below(n);
    if |sorted| == n {
      SubsetSize(Elements(sorted), Below(n));
      assert forall v :: v in sorted <==> v in Elements(sorted);
      OrderMeansAcyclic(pre, sorted);
    } else {
      NotAll(Elements(sorted), Below(n));
      assert NoFirst(pre, u) by { LeftOver(pre, next, count, sorted, u); }
      var c := CycleInside(pre, u);
      assert forall i :: 0 <= i < |c| ==> c[i] !in sorted;
    }
  }

  lemma NotAll(a: set<nat>, b: set<nat>)
    requires a <= b && |a| != |b|
    ensures b - a != {}
  {
    assert b == a + (b - a);
  }

  lemma CountOf(pre: map<nat, set<nat>>, count: seq<int>, sorted: seq<nat>, v: nat)
    requires Counts(pre, count, Elements(sorted)) && Queued(pre, count, sorted) && v < |pre| && v !in sorted
    ensures v in pre && |pre[v] - Elements(sorted)| != 0
  {
    assert count[v] != 0;
  }

  lemma InverseEdge(pre: map<nat, set<nat>>, next: map<nat, set<nat>>, u: nat, v: nat)
    requires Inverse(pre, next) && v in pre && u in pre[v]
    ensures u < |pre|
  {
    assert u in next;
  }

  lemma InverseKey(pre: map<nat, set<nat>>, next: map<nat, set<nat>>, v: nat)
    requires Inverse(pre, next)
    ensures v < |pre| <==> v in pre
    ensures v < |pre| <==> v in next
  {
  }

  lemma OneLeftOver(pre: map<nat, set<nat>>, next: map<nat, set<nat>>, count: seq<int>, sorted: seq<nat>,
                    u: set<nat>, v: nat)
    requires Inverse(pre, next) && Counts(pre, count, Elements(sorted)) && Queued(pre, count, sorted)
    requires u == Below(|pre|) - Elements(sorted) && v in u
    ensures FedFrom(pre, u, v)
  {
    hide Below, Counts, Queued, Inverse;
    CountOf(pre, count, sorted, v);
    var w :| w in pre[v] - Elements(sorted);
    InverseEdge(pre, next, w, v);
    assert w in u && Edge(pre, w, v);
  }

  lemma LeftOver(pre: map<nat, set<nat>>, next: map<nat, set<nat>>, count: seq<int>, sorted: seq<nat>, u: set<nat>)
    requires Inverse(pre, next) && Counts(pre, count, Elements(sorted)) && Queued(pre, count, sorted)
    requires u == Below(|pre|) - Elements(sorted)
    ensures NoFirst(pre, u)
  {
    hide FedFrom;
    forall v | v in u ensures FedFrom(pre, u, v) {
      OneLeftOver(pre, next, count, sorted, u, v);
    }
  }

  function InDegree(pre: map<nat, set<nat>>, v: nat): nat { if v in pre then |pre[v]| else 0 }

  lemma DegreeOf(pre: map<nat, set<nat>>, v: nat)
    requires v in pre
    ensures InDegree(pre, v) == |pre[v]| == |pre[v] - Elements<nat>([])|
  {
  }

  lemma Started(pre: map<nat, set<nat>>, next: map<nat, set<nat>>, count: seq<int>, q: seq<nat>)
    requires Inverse(pre, next) && |count| == |pre|
    requires forall v :: 0 <= v < |count| ==> count[v] == InDegree(pre, v) && (count[v] == 0 <==> v in q)
    requires Distinct(q) && forall i :: 0 <= i < |q| ==> q[i] < |count|
    ensures Counts(pre, count, Elements<nat>([])) && Queued(pre, count, q) && Forward(pre, [])
  {
  }

  // The first loop: counts of predecessors, and the nodes that have none.
  method InDegrees(pre: map<nat, set<nat>>, next: map<nat, set<nat>>) returns (nodeCount: array<int>, q: seq<nat>)
    requires Inverse(pre, next)
    ensures fresh(nodeCount) && nodeCount.Length == |pre|
    ensures Counts(pre, nodeCount[..], Elements<nat>([])) && Queued(pre, nodeCount[..], q) && Forward(pre, [])
  {
    hide Inverse, InDegree, Counts, Queued, Forward;
    var n := |pre|;
    nodeCount := new int[n];
    q := [];
    for nid := 0 to n
      invariant forall v :: 0 <= v < nid ==> nodeCount[v] == InDegree(pre, v)
      invariant Distinct(q) && forall i :: 0 <= i < |q| ==> q[i] < nid
      invariant forall v :: 0 <= v < nid ==> (nodeCount[v] == 0 <==> v in q)
    {
      InverseKey(pre, next, nid);
      assert InDegree(pre, nid) == |pre[nid]| by { DegreeOf(pre, nid); }
      if |pre[nid]| == 0 {
        q := q + [nid];
      }
      nodeCount[nid] := |pre[nid]|;
    }
    Started(pre, next, nodeCount[..], q);
  }

  /** Reports a loop exactly when the graph has a cycle. Without one the list
      holds every node once and every edge points forward; with one, a cycle runs
      through nodes that are not listed. */
  method IsExistLoop(pre: map<nat, set<nat>>, next: map<nat, set<nat>>) returns (sorted: seq<nat>, loop: bool)
    requires Inverse(pre, next)
    ensures loop <==> !Acyclic(pre)
    ensures Distinct(sorted) && Forward(pre, sorted)
    ensures !loop ==> |sorted| == |pre| && forall v :: v in sorted <==> v in pre
    ensures loop ==> exists c :: IsCycle(pre, c) && forall i :: 0 <= i < |c| ==> c[i] !in sorted
  {
    hide Acyclic, IsCycle, Forward, Counts, Queued, Halfway, Inverse, Elements;
    var n := |pre|;
    sorted := [];
    var nodeCount, q := InDegrees(pre, next);
    assert sorted + q == q;
    var zeroCount := 0;
    while |q| != 0
      invariant zeroCount == |sorted|
      invariant Counts(pre, nodeCount[..], Elements(sorted))
      invariant Queued(pre, nodeCount[..], sorted + q)
      invariant Forward(pre, sorted)
      decreases n - |sorted|
    {
      var node := q[0];
      ghost var d := Elements(sorted);
      assert q == [node] + q[1..];
      Popped(pre, nodeCount[..], sorted, q[1..], node);
      assert sorted + q == sorted + [node] + q[1..];
      q := q[1..];
      sorted := sorted + [node];
      zeroCount := zeroCount + 1;
      InverseKey(pre, next, node);
      InnerStart(pre, next, nodeCount[..], d, node);
      var todo := next[node];
      while todo != {}
        invariant todo <= next[node]
        invariant Halfway(pre, nodeCount[..], d, node, todo)
        invariant Queued(pre, nodeCount[..], sorted + q)
      {
        var nnode :| nnode in todo;
        InnerStep(pre, next, nodeCount[..], sorted + q, d, node, todo, nnode);
        ghost var before := nodeCount[..];
        nodeCount[nnode] := nodeCount[nnode] - 1;
        assert nodeCount[..] == before[nnode := before[nnode] - 1];
        if nodeCount[nnode] == 0 {
          assert sorted + (q + [nnode]) == sorted + q + [nnode];
          q := q + [nnode];
        }
        todo := todo - {nnode};
      }
      InnerEnd(pre, nodeCount[..], d, node);
    }
    assert sorted + q == sorted;
    Finished(pre, next, nodeCount[..], sorted);
    assert Distinct(sorted) by { QueuedDistinct(pre, nodeCount[..], sorted); }
    loop := zeroCount != n;
    assert loop ==> !Acyclic(pre) by { if loop { CycleMeans(pre); } }
  }

  lemma InnerEnd(pre: map<nat, set<nat>>, count: seq<int>, d: set<nat>, node: nat)
    requires Halfway(pre, count, d, node, {})
    ensures Counts(pre, count, d + {node})
  {
  }

  lemma QueuedDistinct(pre: map<nat, set<nat>>, count: seq<int>, listed: seq<nat>)
    requires Queued(pre, count, listed)
    ensures Distinct(listed)
  {
  }

  lemma CycleMeans(pre: map<nat, set<nat>>)
    requires exists c :: IsCycle(pre, c)
    ensures !Acyclic(pre)
  {
  }
}
