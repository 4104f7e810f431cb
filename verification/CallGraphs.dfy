/** Reachability in the call graph, by a worklist that may hold a node several times. */
module CallGraphs {

  type Func = nat

  datatype NodeType = Internal | External

  datatype EdgeType = Direct | Indirect

  datatype Edge = Edge(dst: Func, etype: EdgeType)

  datatype Node = Node(ntype: NodeType, outEdges: seq<Edge>)

  /** One node per function. */
  type Graph = map<Func, Node>

  /** Edges lead to nodes. */
  predicate Closed(g: Graph) {
    forall n, k | n in g && 0 <= k < |g[n].outEdges| :: g[n].outEdges[k].dst in g
  }

  class CallGraph {
    var graph: Graph

    constructor ()
      ensures graph == map[]
    {
      graph := map[];
    }

    /** The node of a function, made on first use. */
    method GetNode(f: Func, isDeclaration: bool) returns (node: Node)
      requires Closed(graph)
      modifies this
      ensures Closed(graph) && f in graph && graph[f] == node
      ensures forall n | n in old(graph) :: n in graph && graph[n] == old(graph)[n]
      ensures f !in old(graph) ==> node == Node(if isDeclaration then External else Internal, []) && graph.Keys == old(graph.Keys) + {f}
      ensures f in old(graph) ==> graph == old(graph)
    {
      if f !in graph {
        graph := graph[f := Node(if isDeclaration then External else Internal, [])];
      }
      node := graph[f];
    }

    method AddOutEdge(cur: Func, other: Func, etype: EdgeType)
      requires Closed(graph) && cur in graph && other in graph
      modifies this
      ensures Closed(graph) && graph == old(graph)[cur := old(graph)[cur].(outEdges := old(graph)[cur].outEdges + [Edge(other, etype)])]
    {
      graph := graph[cur := graph[cur].(outEdges := graph[cur].outEdges + [Edge(other, etype)])];
    }
  }

  /** The search goes from `n` to the internal node `m`, over an indirect call only if told to. */
  predicate Admits(g: Graph, n: Func, m: Func, indirect: bool) {
    && n in g && m in g && g[m].ntype.Internal?
    && exists k | 0 <= k < |g[n].outEdges| :: g[n].outEdges[k].dst == m && (indirect || g[n].outEdges[k].etype.Direct?)
  }

  predicate IsPath(g: Graph, path: seq<Func>, src: Func, dst: Func, indirect: bool) {
    && path != [] && path[0] == src && path[|path| - 1] == dst
    && forall i | 0 < i < |path| :: Admits(g, path[i - 1], path[i], indirect)
  }

  ghost predicate Reachable(g: Graph, src: Func, dst: Func, indirect: bool) {
    exists path :: IsPath(g, path, src, dst, indirect)
  }

  lemma ReachableStep(g: Graph, src: Func, n: Func, m: Func, indirect: bool)
    requires Reachable(g, src, n, indirect) && Admits(g, n, m, indirect)
    ensures Reachable(g, src, m, indirect)
  {
    var path :| IsPath(g, path, src, n, indirect);
    assert IsPath(g, path + [m], src, m, indirect);
  }

  /** A set that holds the source and is closed under the edges holds all that is reachable. */
  lemma {:induction false} ClosedSet(g: Graph, path: seq<Func>, src: Func, dst: Func, indirect: bool, s: set<Func>)
    requires IsPath(g, path, src, dst, indirect) && src in s
    requires forall n, m | n in s && Admits(g, n, m, indirect) :: m in s
    ensures dst in s
    decreases |path|
  {
    if |path| > 1 {
      var k := |path| - 1;
      assert IsPath(g, path[..k], src, path[k - 1], indirect);
      ClosedSet(g, path[..k], src, path[k - 1], indirect, s);
      assert Admits(g, path[k - 1], path[k], indirect);
    }
  }

  // ---------------------------------------------------------------- why the search ends

  /** The place of the first node in the queue that is not traced yet, zero if there is none. */
  function FirstUntraced(queue: seq<Func>, traced: set<Func>): (k: nat)
    ensures k <= |queue|
  {
    if forall i | 0 <= i < |queue| :: queue[i] in traced then 0
    else if queue[0] !in traced then 0
    else 1 + FirstUntraced(queue[1..], traced)
  }

  predicate AllTraced(queue: seq<Func>, traced: set<Func>) {
    forall i | 0 <= i < |queue| :: queue[i] in traced
  }

  /** Appending to a queue with an untraced node does not move the first one. */
  lemma {:induction false} FirstKept(queue: seq<Func>, more: seq<Func>, traced: set<Func>)
    requires !AllTraced(queue, traced)
    ensures FirstUntraced(queue + more, traced) == FirstUntraced(queue, traced)
  {
    var i :| 0 <= i < |queue| && queue[i] !in traced;
    assert (queue + more)[i] !in traced;
    if queue[0] in traced {
      assert (queue + more)[1..] == queue[1..] + more;
      assert queue[1..][i - 1] !in traced;
      FirstKept(queue[1..], more, traced);
    }
  }

  /** The nodes that the search appends when it traces `n`. */
  method Expand(g: Graph, n: Func, indirect: bool, traced: set<Func>) returns (more: seq<Func>)
    requires Closed(g) && n in g
    ensures forall m :: m in more <==> Admits(g, n, m, indirect) && m !in traced
  {
    more := [];
    var edges := g[n].outEdges;
    for k := 0 to |edges|
      invariant forall m :: m in more <==> m in g && g[m].ntype.Internal? && m !in traced && exists j | 0 <= j < k :: edges[j].dst == m && (indirect || edges[j].etype.Direct?)
    {
      if !indirect && edges[k].etype.Indirect? {
        continue;
      }
      var m := edges[k].dst;
      if g[m].ntype.Internal? && m !in traced {
        more := more + [m];
      }
    }
  }

  /** Whether `dst` can be reached. */
  method IsReachable(g: Graph, src: Func, dst: Func, indirect: bool) returns (found: bool)
    requires Closed(g) && src in g
    ensures found <==> Reachable(g, src, dst, indirect)
  {
    hide Admits;
    var toTrace, traced := [src], {};
    assert IsPath(g, [src], src, src, indirect);
    while toTrace != []
      invariant forall n | n in toTrace || n in traced :: n in g && Reachable(g, src, n, indirect)
      invariant forall n, m | n in traced && Admits(g, n, m, indirect) :: m in traced || m in toTrace
      invariant src in toTrace || src in traced
      invariant dst !in traced
      decreases |g.Keys - traced|, FirstUntraced(toTrace, traced), |toTrace|
    {
      var n := toTrace[0];
      ghost var queue, before := toTrace, traced;
      toTrace := toTrace[1..];
      traced := traced + {n};
      if n == dst {
        return true;
      }
      var more := Expand(g, n, indirect, traced);
      forall m | m in more ensures Reachable(g, src, m, indirect) && m in g {
        ReachableStep(g, src, n, m, indirect);
        InGraph(g, n, m, indirect);
      }
      toTrace := toTrace + more;
      Shrinks(g, queue, before, n, more, indirect);
    }
    if path :| IsPath(g, path, src, dst, indirect) {
      ClosedSet(g, path, src, dst, indirect, traced);
    }
    return false;
  }

  lemma InGraph(g: Graph, n: Func, m: Func, indirect: bool)
    requires Admits(g, n, m, indirect)
    ensures m in g
  {
  }

  /** Every turn traces a new node, or brings the first untraced one nearer, or shortens the queue. */
  lemma Shrinks(g: Graph, queue: seq<Func>, traced: set<Func>, n: Func, more: seq<Func>, indirect: bool)
    requires queue != [] && queue[0] == n && n in g
    requires forall m :: m in more <==> Admits(g, n, m, indirect) && m !in traced + {n}
    requires n in traced ==> forall m | Admits(g, n, m, indirect) :: m in traced || m in queue
    ensures n !in traced ==> |g.Keys - (traced + {n})| < |g.Keys - traced|
    ensures n in traced ==> traced + {n} == traced
    ensures n in traced ==> (var next := queue[1..] + more;
      FirstUntraced(next, traced) < FirstUntraced(queue, traced) || (FirstUntraced(next, traced) == FirstUntraced(queue, traced) && |next| < |queue|))
  {
    hide Admits, FirstUntraced, AllTraced;
    if n !in traced {
      OneTraced(g.Keys, traced, n);
    } else {
      assert traced + {n} == traced;
      if AllTraced(queue, traced) {
        if more != [] {
          assert more[0] in more;
          InTraced(queue, traced, more[0]);
          assert false;
        }
        assert queue[1..] + more == queue[1..];
        AllTracedRest(queue, traced);
      } else {
        FirstNearer(queue, more, traced);
      }
    }
  }

  lemma OneTraced(all: set<Func>, traced: set<Func>, n: Func)
    requires n in all && n !in traced
    ensures |all - (traced + {n})| < |all - traced|
  {
    assert all - traced == (all - (traced + {n})) + {n};
  }

  lemma InTraced(queue: seq<Func>, traced: set<Func>, m: Func)
    requires AllTraced(queue, traced) && (m in traced || m in queue)
    ensures m in traced
  {
  }

  lemma AllTracedRest(queue: seq<Func>, traced: set<Func>)
    requires queue != [] && AllTraced(queue, traced)
    ensures FirstUntraced(queue, traced) == FirstUntraced(queue[1..], traced) == 0
  {
    assert AllTraced(queue[1..], traced);
  }

  lemma FirstNearer(queue: seq<Func>, more: seq<Func>, traced: set<Func>)
    requires queue != [] && queue[0] in traced && !AllTraced(queue, traced)
    ensures FirstUntraced(queue[1..] + more, traced) < FirstUntraced(queue, traced)
  {
    var i :| 0 <= i < |queue| && queue[i] !in traced;
    assert queue[1..][i - 1] !in traced;
    FirstKept(queue[1..], more, traced);
  }
}
