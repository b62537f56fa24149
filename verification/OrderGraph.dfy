/** Directed graphs of ordering rules: paths, cycles, and what Kahn's algorithm leaves over. */
module OrderGraph {
  import opened Prelude

  type Node = string
  type Edges = set<(Node, Node)>

  ghost predicate IsPath(edges: Edges, p: seq<Node>) {
    p != [] && forall i :: 0 <= i < |p| - 1 ==> (p[i], p[i + 1]) in edges
  }

  ghost predicate IsCycle(edges: Edges, p: seq<Node>) {
    IsPath(edges, p) && |p| >= 2 && p[0] == p[|p| - 1]
  }

  ghost predicate HasCycle(edges: Edges) {
    exists p :: IsCycle(edges, p)
  }

  /** A path into `v` that starts on a cycle. */
  ghost predicate LeadsFromCycle(edges: Edges, c: seq<Node>, p: seq<Node>, v: Node) {
    IsCycle(edges, c) && IsPath(edges, p) && p[0] == c[0] && p[|p| - 1] == v
  }

  ghost predicate BehindCycle(edges: Edges, v: Node) {
    exists c, p :: LeadsFromCycle(edges, c, p, v)
  }

  function Nodes(edges: Edges): set<Node> {
    (set e | e in edges :: e.0) + (set e | e in edges :: e.1)
  }

  /** Sources of the edges into `v` that are not in `done`. */
  ghost function Pending(edges: Edges, v: Node, done: set<Node>): set<Node> {
    set e | e in edges && e.1 == v && e.0 !in done :: e.0
  }

  /** Every edge into the `i`-th node comes from an earlier one. */
  ghost predicate Topological(edges: Edges, order: seq<Node>) {
    forall e, i :: e in edges && 0 <= i < |order| && e.1 == order[i] ==> e.0 in order[..i]
  }

  lemma PendingAfter(edges: Edges, v: Node, done: set<Node>, u: Node)
    requires u !in done
    ensures Pending(edges, v, done) == Pending(edges, v, done + {u}) + (if (u, v) in edges then {u} else {})
    ensures |Pending(edges, v, done)| == |Pending(edges, v, done + {u})| + (if (u, v) in edges then 1 else 0)
  {
    if (u, v) in edges {
      assert (u, v).0 in Pending(edges, v, done);
    }
    assert Pending(edges, v, done) == Pending(edges, v, done + {u}) + (if (u, v) in edges then {u} else {});
  }

  // ----- nodes taken in topological order are behind no cycle

  lemma {:induction false} PathStaysDone(edges: Edges, order: seq<Node>, p: seq<Node>, i: nat)
    requires Topological(edges, order) && IsPath(edges, p)
    requires i < |order| && p[|p| - 1] == order[i]
    ensures forall x :: x in p[..|p| - 1] ==> x in order[..i]
    decreases |p|
  {
    if |p| <= 1 {
    } else {
      var q := p[..|p| - 1];
      assert (p[|p| - 2], p[|p| - 1]) in edges;
      assert q[|q| - 1] in order[..i];
      var j :| 0 <= j < i && order[j] == q[|q| - 1];
      PathStaysDone(edges, order, q, j);
      assert q == q[..|q| - 1] + [order[j]];
      assert forall x :: x in order[..j] ==> x in order[..i];
      assert order[j] == order[..i][j];
    }
  }

  lemma OffCycle(edges: Edges, order: seq<Node>, c: seq<Node>)
    requires Topological(edges, order) && Distinct(order) && IsCycle(edges, c)
    ensures c[0] !in order
  {
    forall j | 0 <= j < |order| ensures order[j] != c[0] {
      assert order[j] !in order[..j];
      assert c[..|c| - 1][0] == c[0];
      if order[j] == c[0] {
        PathStaysDone(edges, order, c, j);
      }
    }
  }

  lemma DoneNotBehindCycle(edges: Edges, order: seq<Node>, v: Node)
    requires Topological(edges, order) && Distinct(order) && v in order
    ensures !BehindCycle(edges, v)
  {
    if BehindCycle(edges, v) {
      var c, p :| LeadsFromCycle(edges, c, p, v);
      var i :| 0 <= i < |order| && order[i] == v;
      PathStaysDone(edges, order, p, i);
      assert c[0] in order by {
        if |p| > 1 {
          assert p[..|p| - 1][0] == c[0];
          assert c[0] in order[..i];
        }
      }
      OffCycle(edges, order, c);
      assert false;
    }
  }

  // ----- nodes that all have a predecessor among themselves are behind a cycle

  ghost predicate FedBy(edges: Edges, left: set<Node>, v: Node) {
    exists u :: u in left && (u, v) in edges
  }

  ghost predicate Fed(edges: Edges, left: set<Node>) {
    forall v {:trigger FedBy(edges, left, v)} :: v in left ==> FedBy(edges, left, v)
  }

  lemma {:induction false} BackwardWalk(edges: Edges, left: set<Node>, v: Node, n: nat) returns (p: seq<Node>)
    requires Fed(edges, left) && v in left
    ensures |p| == n + 1 && IsPath(edges, p) && p[n] == v
    ensures forall x :: x in p ==> x in left
    decreases n
  {
    if n == 0 {
      p := [v];
    } else {
      assert FedBy(edges, left, v);
      var u :| u in left && (u, v) in edges;
      var q := BackwardWalk(edges, left, u, n - 1);
      p := q + [v];
    }
  }

  lemma Pigeonhole(p: seq<Node>, left: set<Node>) returns (i: nat, j: nat)
    requires |p| > |left| && forall x :: x in p ==> x in left
    ensures i < j < |p| && p[i] == p[j]
  {
    if Distinct(p) {
      DistinctSize(p);
      SubsetSize(Elements(p), left);
      assert false;
    }
    i, j :| 0 <= i < j < |p| && p[i] == p[j];
  }

  lemma FedBehindCycle(edges: Edges, left: set<Node>, v: Node)
    requires Fed(edges, left) && v in left
    ensures BehindCycle(edges, v)
  {
    var p := BackwardWalk(edges, left, v, |left|);
    var i, j := Pigeonhole(p, left);
    var c, q := p[i..j + 1], p[i..];
    assert IsPath(edges, c) && IsPath(edges, q);
    assert LeadsFromCycle(edges, c, q, v);
  }

  /** A cycle is behind itself. */
  lemma CycleBehindItself(edges: Edges, c: seq<Node>, v: Node)
    requires IsCycle(edges, c) && v in c
    ensures BehindCycle(edges, v)
  {
    var i :| 0 <= i < |c| && c[i] == v;
    var p := c[..i + 1];
    assert IsPath(edges, p);
    assert LeadsFromCycle(edges, c, p, v);
  }

  lemma BehindCycleIsNode(edges: Edges, v: Node)
    requires BehindCycle(edges, v)
    ensures v in Nodes(edges) && HasCycle(edges)
  {
    var c, p :| LeadsFromCycle(edges, c, p, v);
    if |p| == 1 {
      assert (c[0], c[1]) in edges && (c[0], c[1]).0 == v;
    } else {
      assert (p[|p| - 2], v) in edges && (p[|p| - 2], v).1 == v;
    }
  }

  /**
   What Kahn's algorithm leaves: if the nodes were taken in topological order until every node
   left has a predecessor left, then the nodes left are exactly those behind a cycle.
   */
  lemma LeftoverExact(edges: Edges, order: seq<Node>)
    requires Topological(edges, order) && Distinct(order) && Elements(order) <= Nodes(edges)
    requires Fed(edges, Nodes(edges) - Elements(order))
    ensures forall v :: v in Nodes(edges) - Elements(order) <==> BehindCycle(edges, v)
    ensures |order| == |Nodes(edges)| <==> !HasCycle(edges)
  {
    var left := Nodes(edges) - Elements(order);
    forall v ensures v in left <==> BehindCycle(edges, v) {
      if v in left {
        FedBehindCycle(edges, left, v);
      } else if BehindCycle(edges, v) {
        BehindCycleIsNode(edges, v);
        DoneNotBehindCycle(edges, order, v);
      }
    }
    DistinctSize(order);
    SubsetSize(Elements(order), Nodes(edges));
    if left != {} {
      var v :| v in left;
      BehindCycleIsNode(edges, v);
    } else {
      assert forall v :: v in Nodes(edges) ==> v !in left;
      assert Elements(order) == Nodes(edges);
    }
    if HasCycle(edges) {
      var c :| IsCycle(edges, c);
      CycleBehindItself(edges, c, c[0]);
    }
  }

  lemma NoEdgesNoCycle(edges: Edges)
    requires edges == {}
    ensures !HasCycle(edges)
  {
    forall c ensures !IsCycle(edges, c) {
      if |c| >= 2 {
        assert (c[0], c[1]) !in edges;
      }
    }
  }

  // ----- Kahn's algorithm

  /** Degrees count the edges whose source is not in `done`. */
  ghost predicate Counts(edges: Edges, degree: map<Node, nat>, done: set<Node>) {
    && degree.Keys == Nodes(edges)
    && forall v :: v in degree ==> degree[v] == |Pending(edges, v, done)|
  }

  /** Successor lists name each successor once. */
  ghost predicate Lists(edges: Edges, adjacency: map<Node, seq<Node>>) {
    && (forall u :: u in adjacency ==> Distinct(adjacency[u]))
    && (forall u, v :: (u, v) in edges <==> u in adjacency && v in adjacency[u])
  }

  lemma CountsAdd(edges: Edges, degree: map<Node, nat>, e: (Node, Node))
    requires Counts(edges, degree, {}) && e !in edges
    ensures var first := degree[e.0 := if e.0 in degree then degree[e.0] else 0];
      Counts(edges + {e}, first[e.1 := (if e.1 in first then first[e.1] else 0) + 1], {})
  {
    var first := degree[e.0 := if e.0 in degree then degree[e.0] else 0];
    var next := first[e.1 := (if e.1 in first then first[e.1] else 0) + 1];
    NodesAdd(edges, e);
    assert next.Keys == degree.Keys + {e.0, e.1};
    forall v | v in next ensures next[v] == |Pending(edges + {e}, v, {})| {
      PendingAdd(edges, e, v);
    }
  }

  lemma NodesAdd(edges: Edges, e: (Node, Node))
    ensures Nodes(edges + {e}) == Nodes(edges) + {e.0, e.1}
  {
    assert e in edges + {e};
  }

  lemma PendingAdd(edges: Edges, e: (Node, Node), v: Node)
    requires e !in edges
    ensures |Pending(edges + {e}, v, {})| == |Pending(edges, v, {})| + (if v == e.1 then 1 else 0)
    ensures v !in Nodes(edges) ==> |Pending(edges, v, {})| == 0
  {
    var few, more := Pending(edges, v, {}), Pending(edges + {e}, v, {});
    assert e in edges + {e};
    if v == e.1 {
      assert more == few + {e.0};
      assert forall d :: d in edges && d.1 == v ==> d.0 != e.0;
    } else {
      assert more == few;
    }
    if v !in Nodes(edges) {
      assert few == {};
    }
  }

  lemma ListsAdd(edges: Edges, adjacency: map<Node, seq<Node>>, e: (Node, Node))
    requires Lists(edges, adjacency) && e !in edges
    ensures Lists(edges + {e},
                  adjacency[e.0 := (if e.0 in adjacency then adjacency[e.0] else []) + [e.1]])
  {
    assert e == (e.0, e.1);
  }

  method BuildGraph(edges: Edges) returns (adjacency: map<Node, seq<Node>>, degree: map<Node, nat>)
    ensures Lists(edges, adjacency) && Counts(edges, degree, {})
  {
    hide Lists, Counts;
    adjacency, degree := map[], map[];
    var seen: Edges := {};
    EmptyGraph();
    while seen != edges
      invariant seen <= edges && Lists(seen, adjacency) && Counts(seen, degree, {})
      decreases edges - seen
    {
      assert edges == seen + (edges - seen);
      var e :| e in edges - seen;
      CountsAdd(seen, degree, e);
      ListsAdd(seen, adjacency, e);
      degree := degree[e.0 := if e.0 in degree then degree[e.0] else 0];
      degree := degree[e.1 := (if e.1 in degree then degree[e.1] else 0) + 1];
      adjacency := adjacency[e.0 := (if e.0 in adjacency then adjacency[e.0] else []) + [e.1]];
      seen := seen + {e};
    }
  }

  lemma EmptyGraph()
    ensures Lists({}, map[]) && Counts({}, map[], {})
  {}

  /** The queue holds the nodes of degree zero that were not taken yet, each once. */
  ghost predicate Frontier(degree: map<Node, nat>, order: seq<Node>, queue: seq<Node>) {
    && Distinct(order + queue)
    && forall v :: v in order + queue <==> v in degree && degree[v] == 0
  }

  method Sources(degree: map<Node, nat>) returns (queue: seq<Node>)
    ensures Frontier(degree, [], queue)
  {
    queue := [];
    var rest := degree.Keys;
    while rest != {}
      invariant rest <= degree.Keys && Distinct(queue)
      invariant forall v :: v in queue <==> v in degree && v !in rest && degree[v] == 0
      decreases rest
    {
      var v :| v in rest;
      if degree[v] == 0 {
        queue := queue + [v];
      }
      rest := rest - {v};
    }
    assert [] + queue == queue;
  }

  /** Degrees while the successors in `todo` of the node last taken are still to be reduced. */
  ghost predicate Reducing(edges: Edges, degree: map<Node, nat>, done: set<Node>, todo: seq<Node>) {
    && degree.Keys == Nodes(edges)
    && forall v :: v in degree ==>
         degree[v] == |Pending(edges, v, done)| + (if v in todo then 1 else 0)
  }

  lemma StartReducing(
    edges: Edges, adjacency: map<Node, seq<Node>>, degree: map<Node, nat>, done: set<Node>, u: Node)
    requires Lists(edges, adjacency) && Counts(edges, degree, done) && u !in done
    ensures Reducing(edges, degree, done + {u}, if u in adjacency then adjacency[u] else [])
  {
    forall v | v in degree
      ensures degree[v] == |Pending(edges, v, done + {u})| + (if (u, v) in edges then 1 else 0)
    {
      PendingAfter(edges, v, done, u);
    }
  }

  lemma ReduceOne(edges: Edges, degree: map<Node, nat>, done: set<Node>, todo: seq<Node>)
    requires Reducing(edges, degree, done, todo) && todo != [] && Distinct(todo)
    requires todo[0] in degree
    ensures degree[todo[0]] >= 1
    ensures Reducing(edges, degree[todo[0] := degree[todo[0]] - 1], done, todo[1..])
    ensures Distinct(todo[1..])
  {
    assert todo == [todo[0]] + todo[1..];
    assert todo[0] !in todo[1..];
  }

  lemma FrontierGrows(degree: map<Node, nat>, order: seq<Node>, queue: seq<Node>, v: Node)
    requires Frontier(degree, order, queue) && v in degree && degree[v] >= 1
    ensures var less := degree[v := degree[v] - 1];
      if degree[v] == 1 then Frontier(less, order, queue + [v]) else Frontier(less, order, queue)
  {
    var less := degree[v := degree[v] - 1];
    assert order + (queue + [v]) == (order + queue) + [v];
  }

  /** Takes every edge out of the node last taken, queueing what becomes free. */
  method Release(
    edges: Edges, degree0: map<Node, nat>, queue0: seq<Node>, next: seq<Node>, ghost order: seq<Node>)
    returns (degree: map<Node, nat>, queue: seq<Node>)
    requires Reducing(edges, degree0, Elements(order), next) && Distinct(next)
    requires forall v :: v in next ==> v in degree0
    requires Frontier(degree0, order, queue0)
    ensures Counts(edges, degree, Elements(order)) && Frontier(degree, order, queue)
  {
    hide Frontier, Reducing, Counts, Distinct;
    degree, queue := degree0, queue0;
    var j := 0;
    assert next[0..] == next;
    while j < |next|
      invariant 0 <= j <= |next| && degree.Keys == degree0.Keys
      invariant Reducing(edges, degree, Elements(order), next[j..]) && Distinct(next[j..])
      invariant Frontier(degree, order, queue)
    {
      var after := next[j];
      assert next[j..][0] == after && next[j..][1..] == next[j + 1..];
      ReduceOne(edges, degree, Elements(order), next[j..]);
      FrontierGrows(degree, order, queue, after);
      degree := degree[after := degree[after] - 1];
      if degree[after] == 0 {
        queue := queue + [after];
      }
      j := j + 1;
    }
    assert next[|next|..] == [];
    DoneReducing(edges, degree, Elements(order));
  }

  lemma DoneReducing(edges: Edges, degree: map<Node, nat>, done: set<Node>)
    requires Reducing(edges, degree, done, [])
    ensures Counts(edges, degree, done)
  {}

  lemma TakeNext(edges: Edges, degree: map<Node, nat>, order: seq<Node>, queue: seq<Node>)
    requires Counts(edges, degree, Elements(order)) && Frontier(degree, order, queue) && queue != []
    requires Topological(edges, order)
    ensures Topological(edges, order + [queue[0]]) && queue[0] !in order
    ensures Frontier(degree, order + [queue[0]], queue[1..])
    ensures Elements(order + [queue[0]]) == Elements(order) + {queue[0]}
  {
    var v := queue[0];
    var longer := order + [v];
    assert longer + queue[1..] == order + queue;
    assert (order + queue)[|order|] == v;
    assert forall i :: 0 <= i < |order| ==> (order + queue)[i] == order[i];
    assert degree[v] == 0;
    forall e, i | e in edges && 0 <= i < |longer| && e.1 == longer[i] ensures e.0 in longer[..i] {
      if i == |order| {
        assert e.0 !in Pending(edges, v, Elements(order));
        assert longer[..i] == order;
      } else {
        assert longer[..i] == order[..i];
      }
    }
  }

  lemma Exhausted(edges: Edges, degree: map<Node, nat>, order: seq<Node>)
    requires Counts(edges, degree, Elements(order)) && Frontier(degree, order, [])
    ensures Distinct(order) && Elements(order) <= Nodes(edges)
    ensures Fed(edges, Nodes(edges) - Elements(order))
    ensures (set v | v in degree && degree[v] > 0) == Nodes(edges) - Elements(order)
  {
    assert order + [] == order;
    var left := Nodes(edges) - Elements(order);
    forall v | v in left ensures FedBy(edges, left, v) {
      assert v !in order;
      assert |Pending(edges, v, Elements(order))| > 0;
      var u :| u in Pending(edges, v, Elements(order));
      assert (u, v) in edges && (u, v).0 == u;
      assert u in left;
    }
  }

  lemma OrderFits(edges: Edges, degree: map<Node, nat>, order: seq<Node>, queue: seq<Node>)
    requires Counts(edges, degree, Elements(order)) && Frontier(degree, order, queue)
    ensures |order| + |queue| <= |Nodes(edges)|
  {
    var both := order + queue;
    DistinctSize(both);
    SubsetSize(Elements(both), Nodes(edges));
  }

  /** Counts the nodes that can be taken one by one without breaking an edge. */
  method Kahn(edges: Edges) returns (visited: nat, degree: map<Node, nat>)
    ensures degree.Keys == Nodes(edges)
    ensures visited == |degree| <==> !HasCycle(edges)
    ensures forall v :: v in degree && degree[v] > 0 <==> BehindCycle(edges, v)
  {
    hide Lists, Counts, Frontier, Reducing, Topological, Distinct;
    var adjacency, initial := BuildGraph(edges);
    degree := initial;
    var queue := Sources(degree);
    visited := 0;
    ghost var order: seq<Node> := [];
    NothingTaken(edges);
    CountsKeys(edges, degree, {});
    while queue != []
      invariant visited == |order| && degree.Keys == Nodes(edges)
      invariant Counts(edges, degree, Elements(order)) && Frontier(degree, order, queue)
      invariant Topological(edges, order)
      decreases |Nodes(edges)| - visited
    {
      OrderFits(edges, degree, order, queue);
      var stage := queue[0];
      TakeNext(edges, degree, order, queue);
      StartReducing(edges, adjacency, degree, Elements(order), stage);
      queue := queue[1..];
      visited := visited + 1;
      order := order + [stage];
      var next := if stage in adjacency then adjacency[stage] else [];
      SuccessorsKnown(edges, adjacency, stage);
      degree, queue := Release(edges, degree, queue, next, order);
      CountsKeys(edges, degree, Elements(order));
    }
    Exhausted(edges, degree, order);
    LeftoverExact(edges, order);
    assert forall v :: v in degree && degree[v] > 0 <==> v in (set w | w in degree && degree[w] > 0);
  }

  lemma NothingTaken(edges: Edges)
    ensures Topological(edges, []) && Elements<Node>([]) == {}
  {}

  lemma CountsKeys(edges: Edges, degree: map<Node, nat>, done: set<Node>)
    requires Counts(edges, degree, done)
    ensures degree.Keys == Nodes(edges)
  {}

  lemma SuccessorsKnown(edges: Edges, adjacency: map<Node, seq<Node>>, u: Node)
    requires Lists(edges, adjacency)
    ensures var next := if u in adjacency then adjacency[u] else [];
      Distinct(next) && forall v :: v in next ==> v in Nodes(edges)
  {
    forall v | u in adjacency && v in adjacency[u] ensures v in Nodes(edges) {
      assert (u, v) in edges && (u, v).1 == v;
    }
  }
}
