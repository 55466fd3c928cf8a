/** The flow tracer: a breadth-first search from the seeds of a query over call edges and imports,
    cut at a depth and at a number of nodes. */
module FlowGraph {
  import opened CallEdges
  import opened Disk
  import opened SymbolDb
  import opened Wrappers

  const MAX_FLOW_DEPTH := 3
  const MAX_FLOW_NODES := 15

  datatype Kind = Function | Class | Module | Import

  datatype Relation = Seed | Calls | CalledBy | Imports

  /** What the visited set is keyed by. */
  datatype Vertex = Vertex(kind: Kind, name: string, file: Path)

  datatype FlowNode = FlowNode(vertex: Vertex, line: int, depth: int, relation: Relation)

  /** The answers of the two databases: the edges a symbol starts, the edges it ends, and the imports
      of a file if there is a summary of it. An edge is filed under the file of its caller. */
  datatype Graph = Graph(byCaller: string -> seq<Filed<CallEdge>>, byCallee: string -> seq<Filed<CallEdge>>,
                         importsOf: Path -> Option<seq<string>>)
  {
    function Callees(v: Vertex, depth: int): seq<FlowNode> {
      var es := byCaller(v.name);
      seq(|es|, i requires 0 <= i < |es| =>
        FlowNode(Vertex(Function, es[i].row.calleeName, es[i].file), es[i].row.line, depth, Calls))
    }

    function Callers(v: Vertex, depth: int): seq<FlowNode> {
      var es := byCallee(v.name);
      seq(|es|, i requires 0 <= i < |es| =>
        FlowNode(Vertex(Function, es[i].row.callerName, es[i].file), es[i].row.line, depth, CalledBy))
    }

    function Imported(v: Vertex, depth: int): seq<FlowNode> {
      match importsOf(v.file)
      case None => []
      case Some(names) =>
        seq(|names|, i requires 0 <= i < |names| => FlowNode(Vertex(Import, names[i], v.file), 0, depth, Imports))
    }

    /** The nodes found next to v. */
    function Next(v: Vertex, depth: int): seq<FlowNode> {
      match v.kind
      case Function => Callees(v, depth) + Callers(v, depth)
      case Class => Callees(v, depth) + Callers(v, depth)
      case Module => Imported(v, depth)
      case Import => []
    }
  }

  // ----- Distances -----

  function Vertices(nodes: seq<FlowNode>): set<Vertex> {
    set n | n in nodes :: n.vertex
  }

  /** The vertices next to v. */
  function Succ(g: Graph, v: Vertex): set<Vertex> {
    Vertices(g.Next(v, 0))
  }

  function SuccOf(g: Graph): Vertex -> set<Vertex> {
    v => Succ(g, v)
  }

  function NextOf(g: Graph): Neighbours {
    (v, depth) => g.Next(v, depth)
  }

  /** Whatever is next to v is found one level deeper than asked for v. */
  lemma NextDepth(g: Graph, v: Vertex, depth: int)
    ensures forall n :: n in g.Next(v, depth) ==> n.depth == depth
  {
  }

  lemma NextVertices(g: Graph, v: Vertex, d: int)
    ensures Vertices(g.Next(v, d)) == Succ(g, v)
  {
    var a, b := g.Next(v, d), g.Next(v, 0);
    assert |a| == |b| && forall i :: 0 <= i < |a| ==> a[i].vertex == b[i].vertex;
    forall x ensures x in Vertices(a) <==> x in Vertices(b) {
      if x in Vertices(a) { var i :| 0 <= i < |a| && a[i].vertex == x; assert b[i] in b; }
      if x in Vertices(b) { var i :| 0 <= i < |b| && b[i].vertex == x; assert a[i] in a; }
    }
  }

  // ----- What is next to what, by the rows of the databases -----

  /** Some edge that starts at v says so. */
  ghost predicate CalledFrom(g: Graph, v: Vertex, n: FlowNode) {
    exists e :: e in g.byCaller(v.name)
      && n.vertex == Vertex(Function, e.row.calleeName, e.file) && n.line == e.row.line && n.relation == Calls
  }

  /** Some edge that ends at v says so. */
  ghost predicate CallsInto(g: Graph, v: Vertex, n: FlowNode) {
    exists e :: e in g.byCallee(v.name)
      && n.vertex == Vertex(Function, e.row.callerName, e.file) && n.line == e.row.line && n.relation == CalledBy
  }

  /** The summary of v's file says so. */
  ghost predicate ImportedBy(g: Graph, v: Vertex, n: FlowNode) {
    && g.importsOf(v.file).Some? && n.vertex.name in g.importsOf(v.file).value
    && n.vertex == Vertex(Import, n.vertex.name, v.file) && n.line == 0 && n.relation == Imports
  }

  /** n is next to v: what a function or a class calls and what calls it, and what a module imports. */
  ghost predicate Adjacent(g: Graph, v: Vertex, n: FlowNode) {
    || ((v.kind == Function || v.kind == Class) && (CalledFrom(g, v, n) || CallsInto(g, v, n)))
    || (v.kind == Module && ImportedBy(g, v, n))
  }

  lemma CalleesIff(g: Graph, v: Vertex, depth: int, n: FlowNode)
    ensures n in g.Callees(v, depth) <==> n.depth == depth && CalledFrom(g, v, n)
  {
    var es, ns := g.byCaller(v.name), g.Callees(v, depth);
    if n in ns {
      var i :| 0 <= i < |ns| && ns[i] == n;
      assert es[i] in es;
    }
    if n.depth == depth && CalledFrom(g, v, n) {
      var e :| e in es && n.vertex == Vertex(Function, e.row.calleeName, e.file) && n.line == e.row.line
        && n.relation == Calls;
      var i :| 0 <= i < |es| && es[i] == e;
      assert ns[i] == n;
    }
  }

  lemma CallersIff(g: Graph, v: Vertex, depth: int, n: FlowNode)
    ensures n in g.Callers(v, depth) <==> n.depth == depth && CallsInto(g, v, n)
  {
    var es, ns := g.byCallee(v.name), g.Callers(v, depth);
    if n in ns {
      var i :| 0 <= i < |ns| && ns[i] == n;
      assert es[i] in es;
    }
    if n.depth == depth && CallsInto(g, v, n) {
      var e :| e in es && n.vertex == Vertex(Function, e.row.callerName, e.file) && n.line == e.row.line
        && n.relation == CalledBy;
      var i :| 0 <= i < |es| && es[i] == e;
      assert ns[i] == n;
    }
  }

  lemma ImportedIff(g: Graph, v: Vertex, depth: int, n: FlowNode)
    ensures n in g.Imported(v, depth) <==> n.depth == depth && ImportedBy(g, v, n)
  {
    if g.importsOf(v.file).Some? && n.depth == depth && ImportedBy(g, v, n) {
      var names, ns := g.importsOf(v.file).value, g.Imported(v, depth);
      var i :| 0 <= i < |names| && names[i] == n.vertex.name;
      assert ns[i] == n;
    }
  }

  /** The nodes asked for at a depth are those next to v, at that depth. */
  lemma NextIff(g: Graph, v: Vertex, depth: int, n: FlowNode)
    ensures n in g.Next(v, depth) <==> n.depth == depth && Adjacent(g, v, n)
  {
    CalleesIff(g, v, depth, n);
    CallersIff(g, v, depth, n);
    ImportedIff(g, v, depth, n);
  }

  lemma SuccIff(g: Graph, v: Vertex, w: Vertex)
    ensures w in Succ(g, v) <==> exists n: FlowNode :: n.vertex == w && Adjacent(g, v, n)
  {
    if w in Succ(g, v) {
      var n :| n in g.Next(v, 0) && n.vertex == w;
      NextIff(g, v, 0, n);
    }
    if n: FlowNode :| n.vertex == w && Adjacent(g, v, n) {
      NextIff(g, v, 0, n.(depth := 0));
      assert n.(depth := 0) in g.Next(v, 0);
    }
  }

  /** Every node is a seed, or is next to an earlier node one level up. */
  ghost predicate ExplainedByRows(g: Graph, seeds: seq<FlowNode>, nodes: seq<FlowNode>) {
    forall i :: 0 <= i < |nodes| ==> nodes[i] in seeds || HasParentRow(g, nodes, i)
  }

  ghost predicate HasParentRow(g: Graph, nodes: seq<FlowNode>, i: nat)
    requires i < |nodes|
  {
    exists j :: 0 <= j < i && nodes[i].depth == nodes[j].depth + 1 && Adjacent(g, nodes[j].vertex, nodes[i])
  }

  lemma ExplainedMeansRows(g: Graph, seeds: seq<FlowNode>, nodes: seq<FlowNode>)
    requires Explained(NextOf(g), seeds, nodes)
    ensures ExplainedByRows(g, seeds, nodes)
  {
    forall i | 0 <= i < |nodes| && nodes[i] !in seeds ensures HasParentRow(g, nodes, i) {
      var j :| 0 <= j < i && nodes[i] in NextOf(g)(nodes[j].vertex, nodes[j].depth + 1);
      NextIff(g, nodes[j].vertex, nodes[j].depth + 1, nodes[i]);
    }
  }

  /** Whatever is next to a node above the depth limit is in the list. */
  ghost predicate AllFound(g: Graph, nodes: seq<FlowNode>) {
    forall v, n :: v in nodes && v.depth < MAX_FLOW_DEPTH && Adjacent(g, v.vertex, n) ==> n.vertex in Vertices(nodes)
  }

  lemma UncutFindsAll(g: Graph, seeds: set<Vertex>, nodes: seq<FlowNode>)
    requires DepthsAreDistances(SuccOf(g), seeds, nodes) && Vertices(nodes) == Within(SuccOf(g), seeds, MAX_FLOW_DEPTH)
    ensures AllFound(g, nodes)
  {
    forall v, n | v in nodes && v.depth < MAX_FLOW_DEPTH && Adjacent(g, v.vertex, n) ensures n.vertex in Vertices(nodes) {
      SuccIff(g, v.vertex, n.vertex);
      var i :| 0 <= i < |nodes| && nodes[i] == v;
      StepIsWithin(SuccOf(g), seeds, v.vertex, n.vertex, v.depth);
    }
  }

  lemma StepIsWithin(succ: Successors, seeds: set<Vertex>, v: Vertex, w: Vertex, d: nat)
    requires v in Within(succ, seeds, d) && w in succ(v) && d < MAX_FLOW_DEPTH
    ensures w in Within(succ, seeds, MAX_FLOW_DEPTH)
  {
    assert w in Within(succ, seeds, d + 1);
    WithinMonotone(succ, seeds, d + 1, MAX_FLOW_DEPTH);
  }

  // ----- Distances, for any successor function -----

  type Successors = Vertex -> set<Vertex>

  type Neighbours = (Vertex, int) -> seq<FlowNode>

  /** The vertices at most n steps away from a seed. */
  function Within(succ: Successors, seeds: set<Vertex>, n: nat): set<Vertex> {
    if n == 0 then seeds
    else
      var near := Within(succ, seeds, n - 1);
      near + set u, w | u in near && w in succ(u) :: w
  }

  /** v is exactly d steps away from the nearest seed. */
  ghost predicate AtDistance(succ: Successors, seeds: set<Vertex>, v: Vertex, d: int) {
    0 <= d && v in Within(succ, seeds, d) && (d > 0 ==> v !in Within(succ, seeds, d - 1))
  }

  ghost predicate IsPath(succ: Successors, p: seq<Vertex>) {
    p != [] && forall i :: 0 <= i < |p| - 1 ==> p[i + 1] in succ(p[i])
  }

  /** Within counts the steps of a shortest path ... */
  lemma {:induction false} WithinHasPath(succ: Successors, seeds: set<Vertex>, v: Vertex, n: nat) returns (p: seq<Vertex>)
    requires v in Within(succ, seeds, n)
    ensures IsPath(succ, p) && p[0] in seeds && p[|p| - 1] == v && |p| <= n + 1
    decreases n
  {
    if n == 0 {
      p := [v];
    } else if v in Within(succ, seeds, n - 1) {
      p := WithinHasPath(succ, seeds, v, n - 1);
    } else {
      var u :| u in Within(succ, seeds, n - 1) && v in succ(u);
      var q := WithinHasPath(succ, seeds, u, n - 1);
      p := q + [v];
    }
  }

  /** ... in both directions. */
  lemma {:induction false} PathIsWithin(succ: Successors, seeds: set<Vertex>, p: seq<Vertex>)
    requires IsPath(succ, p) && p[0] in seeds
    ensures p[|p| - 1] in Within(succ, seeds, |p| - 1)
  {
    if |p| > 1 {
      PathIsWithin(succ, seeds, p[..|p| - 1]);
    }
  }

  lemma {:induction false} WithinMonotone(succ: Successors, seeds: set<Vertex>, m: nat, n: nat)
    requires m <= n
    ensures Within(succ, seeds, m) <= Within(succ, seeds, n)
    decreases n
  {
    if m < n {
      WithinMonotone(succ, seeds, m, n - 1);
    }
  }

  // ----- The state of the search -----

  ghost predicate Distinct(nodes: seq<FlowNode>) {
    forall i, j :: 0 <= i < j < |nodes| ==> nodes[i].vertex != nodes[j].vertex
  }

  ghost predicate DepthsAscend(nodes: seq<FlowNode>) {
    forall i, j :: 0 <= i < j < |nodes| ==> nodes[i].depth <= nodes[j].depth
  }

  ghost predicate DepthsAreDistances(succ: Successors, seeds: set<Vertex>, nodes: seq<FlowNode>) {
    forall i :: 0 <= i < |nodes| ==>
      nodes[i].depth <= MAX_FLOW_DEPTH && AtDistance(succ, seeds, nodes[i].vertex, nodes[i].depth)
  }

  /** Every node above the depth limit among the first `done` ones has its successors in the list. */
  ghost predicate Expanded(succ: Successors, nodes: seq<FlowNode>, done: nat) {
    forall i :: 0 <= i < |nodes| && i < done && nodes[i].depth < MAX_FLOW_DEPTH ==> succ(nodes[i].vertex) <= Vertices(nodes)
  }

  ghost predicate Searching(succ: Successors, seeds: set<Vertex>, nodes: seq<FlowNode>, done: nat) {
    && Distinct(nodes) && DepthsAscend(nodes) && DepthsAreDistances(succ, seeds, nodes)
    && seeds <= Vertices(nodes)
    && Expanded(succ, nodes, done)
  }

  lemma DistanceAtMost(succ: Successors, seeds: set<Vertex>, v: Vertex, d: int, n: nat)
    requires AtDistance(succ, seeds, v, d) && v in Within(succ, seeds, n)
    ensures d <= n
  {
    if n < d {
      WithinMonotone(succ, seeds, n, d - 1);
    }
  }

  /** A found vertex nearer than the first unexpanded node has been expanded. */
  lemma NearIsExpanded(succ: Successors, seeds: set<Vertex>, nodes: seq<FlowNode>, done: nat, n: nat, u: Vertex)
    requires DepthsAscend(nodes) && DepthsAreDistances(succ, seeds, nodes) && Expanded(succ, nodes, done)
    requires n < MAX_FLOW_DEPTH && (done < |nodes| ==> n < nodes[done].depth)
    requires u in Within(succ, seeds, n) && u in Vertices(nodes)
    ensures succ(u) <= Vertices(nodes)
  {
    var i :| 0 <= i < |nodes| && nodes[i].vertex == u;
    DistanceAtMost(succ, seeds, u, nodes[i].depth, n);
    assert done < |nodes| ==> i < done;
  }

  /** Everything up to the depth of the first unexpanded node has been found. */
  lemma {:induction false} FoundUpTo(succ: Successors, seeds: set<Vertex>, nodes: seq<FlowNode>, done: nat, n: nat)
    requires Searching(succ, seeds, nodes, done) && n <= MAX_FLOW_DEPTH
    requires done < |nodes| ==> n <= nodes[done].depth
    ensures Within(succ, seeds, n) <= Vertices(nodes)
  {
    if n > 0 {
      FoundUpTo(succ, seeds, nodes, done, n - 1);
      forall u | u in Within(succ, seeds, n - 1) ensures succ(u) <= Vertices(nodes) {
        NearIsExpanded(succ, seeds, nodes, done, n - 1, u);
      }
    }
  }

  /** A vertex first reached from a node of depth d is at distance d + 1. */
  lemma NewDistance(succ: Successors, seeds: set<Vertex>, nodes: seq<FlowNode>, done: nat, w: Vertex)
    requires Searching(succ, seeds, nodes, done) && done < |nodes| && nodes[done].depth < MAX_FLOW_DEPTH
    requires w in succ(nodes[done].vertex) && w !in Vertices(nodes)
    ensures AtDistance(succ, seeds, w, nodes[done].depth + 1)
  {
    var d := nodes[done].depth;
    assert AtDistance(succ, seeds, nodes[done].vertex, d);
    FoundUpTo(succ, seeds, nodes, done, d);
  }

  function AddOne(nodes: seq<FlowNode>, n: FlowNode): seq<FlowNode> {
    if n.vertex in Vertices(nodes) then nodes else nodes + [n]
  }

  lemma VerticesAppend(nodes: seq<FlowNode>, n: FlowNode)
    ensures Vertices(nodes + [n]) == Vertices(nodes) + {n.vertex}
  {
    assert forall x :: x in nodes + [n] <==> x in nodes || x == n;
  }

  lemma VerticesTake(nodes: seq<FlowNode>, k: nat)
    requires k < |nodes|
    ensures Vertices(nodes[..k + 1]) == Vertices(nodes[..k]) + {nodes[k].vertex}
  {
    assert nodes[..k + 1] == nodes[..k] + [nodes[k]];
    VerticesAppend(nodes[..k], nodes[k]);
  }

  /** The search is expanding the node at index `done`. */
  ghost predicate Expanding(succ: Successors, seeds: set<Vertex>, nodes: seq<FlowNode>, done: nat) {
    && Searching(succ, seeds, nodes, done)
    && done < |nodes| && nodes[done].depth < MAX_FLOW_DEPTH
    && forall i :: done <= i < |nodes| ==> nodes[i].depth <= nodes[done].depth + 1
  }

  lemma AppendDistinct(nodes: seq<FlowNode>, n: FlowNode)
    requires Distinct(nodes) && n.vertex !in Vertices(nodes)
    ensures Distinct(nodes + [n])
  {
    forall i | 0 <= i < |nodes| ensures nodes[i].vertex != n.vertex {
      assert nodes[i] in nodes;
    }
  }

  lemma AppendExpanded(succ: Successors, nodes: seq<FlowNode>, done: nat, n: FlowNode)
    requires Expanded(succ, nodes, done) && done < |nodes|
    ensures Expanded(succ, nodes + [n], done)
  {
    VerticesAppend(nodes, n);
  }

  /** Adding one neighbour of the node being expanded. */
  lemma AddNeighbour(succ: Successors, seeds: set<Vertex>, nodes: seq<FlowNode>, done: nat, n: FlowNode)
    requires Expanding(succ, seeds, nodes, done)
    requires n.vertex in succ(nodes[done].vertex) && n.depth == nodes[done].depth + 1
    ensures Expanding(succ, seeds, AddOne(nodes, n), done)
    ensures nodes <= AddOne(nodes, n) && Vertices(AddOne(nodes, n)) == Vertices(nodes) + {n.vertex}
  {
    if n.vertex !in Vertices(nodes) {
      NewDistance(succ, seeds, nodes, done, n.vertex);
      VerticesAppend(nodes, n);
      AppendDistinct(nodes, n);
      AppendExpanded(succ, nodes, done, n);
      AppendDepths(succ, seeds, nodes, done, n);
    } else {
      assert Vertices(nodes) == Vertices(nodes) + {n.vertex};
    }
  }

  lemma AppendDepths(succ: Successors, seeds: set<Vertex>, nodes: seq<FlowNode>, done: nat, n: FlowNode)
    requires DepthsAscend(nodes) && DepthsAreDistances(succ, seeds, nodes)
    requires done < |nodes| && nodes[done].depth < MAX_FLOW_DEPTH
    requires forall i :: done <= i < |nodes| ==> nodes[i].depth <= nodes[done].depth + 1
    requires n.depth == nodes[done].depth + 1 && AtDistance(succ, seeds, n.vertex, n.depth)
    ensures DepthsAscend(nodes + [n]) && DepthsAreDistances(succ, seeds, nodes + [n])
  {
  }

  /** Every node is a seed, or was found next to an earlier node, one level up, by the relation it names. */
  ghost predicate Explained(next: Neighbours, seeds: seq<FlowNode>, nodes: seq<FlowNode>) {
    forall i :: 0 <= i < |nodes| ==> nodes[i] in seeds || HasParent(next, nodes, i)
  }

  ghost predicate HasParent(next: Neighbours, nodes: seq<FlowNode>, i: nat)
    requires i < |nodes|
  {
    exists j :: 0 <= j < i && nodes[i] in next(nodes[j].vertex, nodes[j].depth + 1)
  }

  lemma KeepsParent(next: Neighbours, nodes: seq<FlowNode>, n: FlowNode, i: nat)
    requires i < |nodes| && HasParent(next, nodes, i)
    ensures HasParent(next, nodes + [n], i)
  {
    var j :| 0 <= j < i && nodes[i] in next(nodes[j].vertex, nodes[j].depth + 1);
    assert (nodes + [n])[j] == nodes[j] && (nodes + [n])[i] == nodes[i];
  }

  lemma AddExplained(next: Neighbours, seeds: seq<FlowNode>, nodes: seq<FlowNode>, n: FlowNode, j: nat)
    requires Explained(next, seeds, nodes)
    requires n in seeds || (j < |nodes| && n in next(nodes[j].vertex, nodes[j].depth + 1))
    ensures Explained(next, seeds, AddOne(nodes, n))
  {
    if n.vertex !in Vertices(nodes) {
      var r := nodes + [n];
      forall i | 0 <= i < |r| ensures r[i] in seeds || HasParent(next, r, i) {
        if i == |nodes| {
          assert j < |nodes| ==> r[j] == nodes[j];
        } else if nodes[i] !in seeds {
          KeepsParent(next, nodes, n, i);
        }
      }
    }
  }

  /** One pass of the inner loop. */
  lemma AddNext(next: Neighbours, succ: Successors, seeds: seq<FlowNode>, nodes: seq<FlowNode>, at: nat, n: FlowNode)
    requires Expanding(succ, Vertices(seeds), nodes, at) && Explained(next, seeds, nodes)
    requires n.vertex in succ(nodes[at].vertex) && n.depth == nodes[at].depth + 1
    requires n in next(nodes[at].vertex, nodes[at].depth + 1)
    ensures Expanding(succ, Vertices(seeds), AddOne(nodes, n), at) && Explained(next, seeds, AddOne(nodes, n))
    ensures nodes <= AddOne(nodes, n) && Vertices(AddOne(nodes, n)) == Vertices(nodes) + {n.vertex}
  {
    AddNeighbour(succ, Vertices(seeds), nodes, at, n);
    AddExplained(next, seeds, nodes, n, at);
  }

  /** The node at index `done` is expanded once all its successors are in the list. */
  lemma Advance(succ: Successors, seeds: set<Vertex>, nodes: seq<FlowNode>, done: nat)
    requires Searching(succ, seeds, nodes, done) && done < |nodes|
    requires nodes[done].depth >= MAX_FLOW_DEPTH || succ(nodes[done].vertex) <= Vertices(nodes)
    ensures Searching(succ, seeds, nodes, done + 1)
  {
  }

  /** An uncut search finds everything within the depth limit and nothing else; a cut one misses
      nothing nearer than its last node. */
  ghost predicate Complete(succ: Successors, seeds: set<Vertex>, nodes: seq<FlowNode>) {
    && (|nodes| < MAX_FLOW_NODES ==> Vertices(nodes) == Within(succ, seeds, MAX_FLOW_DEPTH))
    && (nodes != [] && nodes[|nodes| - 1].depth > 0 ==> Within(succ, seeds, nodes[|nodes| - 1].depth - 1) <= Vertices(nodes))
  }

  /** What has been found when the search stops at index `done`: everything up to one level above the
      last node ... */
  lemma ConcludeCut(succ: Successors, seeds: set<Vertex>, nodes: seq<FlowNode>, done: nat)
    requires Searching(succ, seeds, nodes, done) && nodes != [] && nodes[|nodes| - 1].depth > 0
    requires done < |nodes| ==> nodes[|nodes| - 1].depth <= nodes[done].depth + 1
    ensures Within(succ, seeds, nodes[|nodes| - 1].depth - 1) <= Vertices(nodes)
  {
    var d := nodes[|nodes| - 1].depth;
    assert d <= MAX_FLOW_DEPTH;
    FoundUpTo(succ, seeds, nodes, done, d - 1);
  }

  /** ... and, at the end of the list, everything within the depth limit. */
  lemma ConcludeAll(succ: Successors, seeds: set<Vertex>, nodes: seq<FlowNode>)
    requires Searching(succ, seeds, nodes, |nodes|)
    ensures Vertices(nodes) == Within(succ, seeds, MAX_FLOW_DEPTH)
  {
    FoundUpTo(succ, seeds, nodes, |nodes|, MAX_FLOW_DEPTH);
    forall n | n in nodes ensures n.vertex in Within(succ, seeds, MAX_FLOW_DEPTH) {
      InRange(succ, seeds, nodes, n);
    }
  }

  lemma InRange(succ: Successors, seeds: set<Vertex>, nodes: seq<FlowNode>, n: FlowNode)
    requires DepthsAreDistances(succ, seeds, nodes) && n in nodes
    ensures n.vertex in Within(succ, seeds, MAX_FLOW_DEPTH)
  {
    var i :| 0 <= i < |nodes| && nodes[i] == n;
    assert AtDistance(succ, seeds, nodes[i].vertex, nodes[i].depth);
    WithinMonotone(succ, seeds, nodes[i].depth, MAX_FLOW_DEPTH);
  }

  lemma Conclude(succ: Successors, seeds: set<Vertex>, nodes: seq<FlowNode>, done: nat)
    requires Searching(succ, seeds, nodes, done) && done <= |nodes|
    requires done < |nodes| ==> |nodes| >= MAX_FLOW_NODES && nodes[|nodes| - 1].depth <= nodes[done].depth + 1
    ensures Complete(succ, seeds, nodes)
  {
    if done == |nodes| {
      ConcludeAll(succ, seeds, nodes);
    }
    if nodes != [] && nodes[|nodes| - 1].depth > 0 {
      ConcludeCut(succ, seeds, nodes, done);
    }
  }

  /** The result and the two variables the closure `addUnique` captures. */
  class FlowTrace {
    var visited: set<Vertex>
    var nodes: seq<FlowNode>

    constructor ()
      ensures nodes == [] && visited == {}
    {
      visited, nodes := {}, [];
    }

    method AddUnique(n: FlowNode) returns (added: bool)
      requires visited == Vertices(nodes)
      modifies this
      ensures nodes == AddOne(old(nodes), n) && visited == Vertices(nodes)
      ensures added <==> n.vertex !in Vertices(old(nodes))
    {
      if n.vertex in visited {
        return false;
      }
      VerticesAppend(nodes, n);
      visited := visited + {n.vertex};
      nodes := nodes + [n];
      return true;
    }

    method AddSeeds(g: Graph, seeds: seq<FlowNode>)
      requires nodes == [] && visited == {}
      requires forall s :: s in seeds ==> s.depth == 0
      modifies this
      ensures visited == Vertices(nodes) && Vertices(nodes) == Vertices(seeds)
      ensures Searching(SuccOf(g), Vertices(seeds), nodes, 0)
      ensures Explained(NextOf(g), seeds, nodes) && forall i :: 0 <= i < |nodes| ==> nodes[i].depth == 0
    {
      for i := 0 to |seeds|
        invariant visited == Vertices(nodes) && Vertices(nodes) == Vertices(seeds[..i])
        invariant Distinct(nodes) && Explained(NextOf(g), seeds, nodes)
        invariant forall j :: 0 <= j < |nodes| ==> nodes[j].depth == 0
      {
        AddExplained(NextOf(g), seeds, nodes, seeds[i], 0);
        VerticesAppend(seeds[..i], seeds[i]);
        assert seeds[..i + 1] == seeds[..i] + [seeds[i]];
        if seeds[i].vertex !in Vertices(nodes) { AppendDistinct(nodes, seeds[i]); VerticesAppend(nodes, seeds[i]); }
        var _ := AddUnique(seeds[i]);
      }
      assert seeds[..|seeds|] == seeds;
      forall i | 0 <= i < |nodes| ensures nodes[i].vertex in Vertices(seeds) {
        assert nodes[i] in nodes;
      }
    }

    /** The body of the search loop: adds everything next to the node at index `at`. */
    method Expand(g: Graph, ghost succ: Successors, ghost next: Neighbours, ghost seeds: seq<FlowNode>, at: nat)
      requires visited == Vertices(nodes) && Expanding(succ, Vertices(seeds), nodes, at)
      requires Explained(next, seeds, nodes)
      requires succ(nodes[at].vertex) == Succ(g, nodes[at].vertex)
      requires next(nodes[at].vertex, nodes[at].depth + 1) == g.Next(nodes[at].vertex, nodes[at].depth + 1)
      modifies this
      ensures visited == Vertices(nodes) && old(nodes) <= nodes
      ensures Expanding(succ, Vertices(seeds), nodes, at)
      ensures succ(nodes[at].vertex) <= Vertices(nodes)
      ensures Explained(next, seeds, nodes)
    {
      var node := nodes[at];
      var found := g.Next(node.vertex, node.depth + 1);
      NextVertices(g, node.vertex, node.depth + 1);
      NextDepth(g, node.vertex, node.depth + 1);
      for k := 0 to |found|
        invariant visited == Vertices(nodes) && old(nodes) <= nodes
        invariant Expanding(succ, Vertices(seeds), nodes, at)
        invariant Vertices(found[..k]) <= Vertices(nodes)
        invariant Explained(next, seeds, nodes)
      {
        assert found[k] in found;
        AddNext(next, succ, seeds, nodes, at, found[k]);
        VerticesTake(found, k);
        var _ := AddUnique(found[k]);
      }
      assert found[..|found|] == found;
    }

    /** One pass of the search loop. */
    method Pass(g: Graph, ghost succ: Successors, ghost next: Neighbours, ghost seeds: seq<FlowNode>, i: nat)
      requires visited == Vertices(nodes) && Searching(succ, Vertices(seeds), nodes, i) && Explained(next, seeds, nodes)
      requires i < |nodes| && forall k :: i <= k < |nodes| ==> nodes[k].depth <= nodes[i].depth + 1
      requires succ(nodes[i].vertex) == Succ(g, nodes[i].vertex)
      requires next(nodes[i].vertex, nodes[i].depth + 1) == g.Next(nodes[i].vertex, nodes[i].depth + 1)
      modifies this
      ensures visited == Vertices(nodes) && old(nodes) <= nodes
      ensures Searching(succ, Vertices(seeds), nodes, i + 1) && Explained(next, seeds, nodes)
      ensures forall k :: i <= k < |nodes| ==> nodes[k].depth <= nodes[i].depth + 1
    {
      if nodes[i].depth < MAX_FLOW_DEPTH {
        Expand(g, succ, next, seeds, i);
      }
      Advance(succ, Vertices(seeds), nodes, i);
    }

    method Search(g: Graph, ghost succ: Successors, ghost next: Neighbours, ghost seeds: seq<FlowNode>)
      requires visited == Vertices(nodes) && Searching(succ, Vertices(seeds), nodes, 0) && Explained(next, seeds, nodes)
      requires forall i :: 0 <= i < |nodes| ==> nodes[i].depth == 0
      requires forall v {:trigger Succ(g, v)} :: succ(v) == Succ(g, v)
      requires forall v, depth {:trigger g.Next(v, depth)} :: next(v, depth) == g.Next(v, depth)
      modifies this
      ensures Distinct(nodes) && DepthsAscend(nodes) && DepthsAreDistances(succ, Vertices(seeds), nodes)
      ensures Vertices(seeds) <= Vertices(nodes)
      ensures Explained(next, seeds, nodes)
      ensures Complete(succ, Vertices(seeds), nodes)
    {
      var i := 0;
      while i < |nodes| && |nodes| < MAX_FLOW_NODES
        invariant i <= |nodes| && visited == Vertices(nodes)
        invariant Searching(succ, Vertices(seeds), nodes, i) && Explained(next, seeds, nodes)
        invariant i < |nodes| ==> forall k :: i <= k < |nodes| ==> nodes[k].depth <= nodes[i].depth + 1
        decreases MAX_FLOW_NODES - |nodes|, |nodes| - i
      {
        assert succ(nodes[i].vertex) == Succ(g, nodes[i].vertex);
        assert next(nodes[i].vertex, nodes[i].depth + 1) == g.Next(nodes[i].vertex, nodes[i].depth + 1);
        Pass(g, succ, next, seeds, i);
        i := i + 1;
      }
      Conclude(succ, Vertices(seeds), nodes, i);
    }

    method TraceFlow(g: Graph, seeds: seq<FlowNode>)
      requires nodes == [] && visited == {}
      requires forall s :: s in seeds ==> s.depth == 0
      modifies this
      // no vertex twice, in order of depth, and every depth is a shortest distance, cut or not
      ensures Distinct(nodes) && DepthsAscend(nodes) && Vertices(seeds) <= Vertices(nodes)
      ensures DepthsAreDistances(SuccOf(g), Vertices(seeds), nodes)
      ensures Explained(NextOf(g), seeds, nodes)
      ensures Complete(SuccOf(g), Vertices(seeds), nodes)
      // the same by the rows of the databases: where each node comes from, and what an uncut search holds
      ensures ExplainedByRows(g, seeds, nodes)
      ensures |nodes| < MAX_FLOW_NODES ==> AllFound(g, nodes)
    {
      AddSeeds(g, seeds);
      assert forall v {:trigger Succ(g, v)} :: SuccOf(g)(v) == Succ(g, v);
      assert forall v, depth {:trigger g.Next(v, depth)} :: NextOf(g)(v, depth) == g.Next(v, depth);
      Search(g, SuccOf(g), NextOf(g), seeds);
      ExplainedMeansRows(g, seeds, nodes);
      if |nodes| < MAX_FLOW_NODES {
        UncutFindsAll(g, Vertices(seeds), nodes);
      }
    }
  }

  // ----- One call -----

  const HERE := Path([], "main.go")

  const ONE_EDGE := Filed(HERE, CallEdge("main", "helper", 7, "go"))

  /** One edge: main calls helper. */
  function OneCall(): Graph {
    Graph(name => if name == "main" then [ONE_EDGE] else [], name => if name == "helper" then [ONE_EDGE] else [],
          path => None)
  }

  const MAIN := Vertex(Function, "main", HERE)

  const HELPER := Vertex(Function, "helper", HERE)

  lemma OneCallRows(v: Vertex, n: FlowNode)
    ensures v == MAIN || v == HELPER ==>
      (Adjacent(OneCall(), v, n)
       <==> n.line == 7 && if v == MAIN then n.vertex == HELPER && n.relation == Calls
                           else n.vertex == MAIN && n.relation == CalledBy)
  {
    var g := OneCall();
    assert |"main"| == 4 && |"helper"| == 6;
    assert g.byCaller("main") == [ONE_EDGE] && g.byCaller("helper") == [] && g.byCallee("main") == [];
    assert g.byCallee("helper") == [ONE_EDGE] && ONE_EDGE in g.byCaller("main") && ONE_EDGE in g.byCallee("helper");
  }

  lemma {:induction false} OnlyTwo(seeds: seq<FlowNode>, nodes: seq<FlowNode>, i: nat)
    requires i < |nodes| && ExplainedByRows(OneCall(), seeds, nodes)
    requires forall s :: s in seeds ==> s.vertex == MAIN || s.vertex == HELPER
    ensures nodes[i].vertex == MAIN || nodes[i].vertex == HELPER
  {
    if nodes[i] !in seeds {
      var j :| 0 <= j < i && nodes[i].depth == nodes[j].depth + 1 && Adjacent(OneCall(), nodes[j].vertex, nodes[i]);
      OnlyTwo(seeds, nodes, j);
      OneCallRows(nodes[j].vertex, nodes[i]);
    }
  }

  lemma AtMostTwo(seeds: seq<FlowNode>, nodes: seq<FlowNode>)
    requires Distinct(nodes) && ExplainedByRows(OneCall(), seeds, nodes)
    requires forall s :: s in seeds ==> s.vertex == MAIN || s.vertex == HELPER
    ensures |nodes| <= 2
  {
    if |nodes| > 2 {
      OnlyTwo(seeds, nodes, 0);
      OnlyTwo(seeds, nodes, 1);
      OnlyTwo(seeds, nodes, 2);
    }
  }

  /** What a search from one vertex found. */
  ghost predicate FoundFrom(g: Graph, from: Vertex, nodes: seq<FlowNode>) {
    && Distinct(nodes) && ExplainedByRows(g, [FlowNode(from, 0, 0, Seed)], nodes)
    && (exists v :: v in nodes && v.vertex == from && v.depth == 0)
    && (|nodes| < MAX_FLOW_NODES ==> AllFound(g, nodes))
  }

  method TraceFrom(g: Graph, from: Vertex) returns (t: FlowTrace)
    ensures fresh(t) && FoundFrom(g, from, t.nodes)
  {
    var seeds := [FlowNode(from, 0, 0, Seed)];
    t := new FlowTrace();
    t.TraceFlow(g, seeds);
    OneSeed(from);
    SeedsHaveDepthZero(SuccOf(g), {from}, t.nodes, from);
  }

  lemma OneSeed(from: Vertex)
    ensures Vertices([FlowNode(from, 0, 0, Seed)]) == {from}
  {
    assert [FlowNode(from, 0, 0, Seed)][0] in [FlowNode(from, 0, 0, Seed)];
  }

  lemma SeedsHaveDepthZero(succ: Successors, seeds: set<Vertex>, nodes: seq<FlowNode>, from: Vertex)
    requires DepthsAreDistances(succ, seeds, nodes) && from in seeds && from in Vertices(nodes)
    ensures exists v :: v in nodes && v.vertex == from && v.depth == 0
  {
    var v :| v in nodes && v.vertex == from;
    var i :| 0 <= i < |nodes| && nodes[i] == v;
    DistanceAtMost(succ, seeds, v.vertex, v.depth, 0);
  }

  lemma BothFound(from: Vertex, nodes: seq<FlowNode>)
    requires (from == MAIN || from == HELPER) && FoundFrom(OneCall(), from, nodes)
    ensures MAIN in Vertices(nodes) && HELPER in Vertices(nodes)
  {
    AtMostTwo([FlowNode(from, 0, 0, Seed)], nodes);
    OneCallRows(from, if from == MAIN then FlowNode(HELPER, 7, 1, Calls) else FlowNode(MAIN, 7, 1, CalledBy));
  }

  /** From the callee the search finds the caller, and from the caller the callee. */
  method BothWays() returns (up: FlowTrace, down: FlowTrace)
    ensures MAIN in Vertices(up.nodes) && HELPER in Vertices(up.nodes)
    ensures MAIN in Vertices(down.nodes) && HELPER in Vertices(down.nodes)
  {
    up := TraceFrom(OneCall(), HELPER);
    BothFound(HELPER, up.nodes);
    down := TraceFrom(OneCall(), MAIN);
    BothFound(MAIN, down.nodes);
  }

  method MaxNodeDepth(nodes: seq<FlowNode>) returns (deepest: int)
    requires forall n :: n in nodes ==> n.depth >= 0
    ensures forall n :: n in nodes ==> n.depth <= deepest
    ensures if nodes == [] then deepest == 0 else exists n :: n in nodes && n.depth == deepest
    ensures nodes != [] && DepthsAscend(nodes) ==> deepest == nodes[|nodes| - 1].depth
  {
    deepest := 0;
    for i := 0 to |nodes|
      invariant deepest >= 0 && forall n :: n in nodes[..i] ==> n.depth <= deepest
      invariant if i == 0 then deepest == 0 else exists n :: n in nodes[..i] && n.depth == deepest
    {
      assert nodes[..i + 1] == nodes[..i] + [nodes[i]] && nodes[i] in nodes;
      if nodes[i].depth > deepest {
        deepest := nodes[i].depth;
      }
    }
    assert nodes[..|nodes|] == nodes;
  }
}
