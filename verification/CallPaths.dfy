/** `CallPathManager`: a tree of calls in which recursion is folded back, and the summary of its statistics
by call site and function.
*/
module CallPaths {
  import opened Basics

  type NodeId = nat

  /** A call site and the function called there. */
  datatype Key = Key(callSite: nat, fn: nat)

  /** Node 0 is the root, which has no key. `statistics` is one counter of the statistics record. */
  datatype CallPathNode = CallPathNode(parent: NodeId, key: Option<Key>, children: map<Key, NodeId>, statistics: nat, summary: nat, count: nat)

  /** Parents come before their children. */
  predicate Rooted(nodes: seq<CallPathNode>) {
    && nodes != [] && nodes[0].key.None?
    && (forall x | 0 < x < |nodes| :: nodes[x].parent < x && nodes[x].key.Some?)
  }

  /** `m` is `x` or an ancestor of it. */
  predicate OnChain(nodes: seq<CallPathNode>, m: NodeId, x: NodeId)
    requires Rooted(nodes) && x < |nodes|
    decreases x
  {
    m == x || (x > 0 && OnChain(nodes, m, nodes[x].parent))
  }

  /** No key occurs twice on the chain of ancestors of a node. */
  ghost predicate NoRepeats(nodes: seq<CallPathNode>)
    requires Rooted(nodes)
  {
    forall x, m, n | 0 <= x < |nodes| && 0 < m < |nodes| && 0 < n < |nodes| && OnChain(nodes, m, x) && OnChain(nodes, n, x) && nodes[m].key == nodes[n].key :: m == n
  }

  /** Children are found under their keys. */
  predicate ChildrenOk(nodes: seq<CallPathNode>) {
    forall x, k | 0 <= x < |nodes| && k in nodes[x].children :: nodes[x].children[k] < |nodes| && nodes[nodes[x].children[k]].key == Some(k)
  }

  lemma {:induction false} ChainBound(nodes: seq<CallPathNode>, m: NodeId, x: NodeId)
    requires Rooted(nodes) && x < |nodes| && OnChain(nodes, m, x)
    ensures m <= x
    decreases x
  {
    if m != x {
      ChainBound(nodes, m, nodes[x].parent);
    }
  }

  /** Two ancestors of a node lie on one chain. */
  lemma {:induction false} ChainTrans(nodes: seq<CallPathNode>, l: NodeId, m: NodeId, x: NodeId)
    requires Rooted(nodes) && x < |nodes| && m < |nodes| && OnChain(nodes, m, x) && OnChain(nodes, l, m)
    ensures OnChain(nodes, l, x)
    decreases x
  {
    if m != x {
      ChainTrans(nodes, l, m, nodes[x].parent);
    }
  }

  /** Chains do not depend on what is appended or on other fields. */
  lemma {:induction false} SameChain(nodes: seq<CallPathNode>, nodes': seq<CallPathNode>, m: NodeId, x: NodeId)
    requires Rooted(nodes) && Rooted(nodes') && x < |nodes| <= |nodes'| && forall y | 0 <= y < |nodes| :: nodes'[y].parent == nodes[y].parent
    ensures OnChain(nodes', m, x) == OnChain(nodes, m, x)
    decreases x
  {
    if x > 0 && m != x {
      SameChain(nodes, nodes', m, nodes[x].parent);
    }
  }

  /** A new node with a key that its chain lacks. */
  lemma AppendNoRepeats(nodes: seq<CallPathNode>, node: CallPathNode)
    requires Rooted(nodes) && NoRepeats(nodes) && node.parent < |nodes| && node.key.Some?
    requires forall m | 0 < m < |nodes| && OnChain(nodes, m, node.parent) :: nodes[m].key != node.key
    ensures Rooted(nodes + [node]) && NoRepeats(nodes + [node])
  {
    var nodes' := nodes + [node];
    forall x, m, n | 0 <= x < |nodes'| && 0 < m < |nodes'| && 0 < n < |nodes'| && OnChain(nodes', m, x) && OnChain(nodes', n, x) && nodes'[m].key == nodes'[n].key
      ensures m == n
    {
      ChainBound(nodes', m, x);
      ChainBound(nodes', n, x);
      var y := if x < |nodes| then x else node.parent;
      SameChain(nodes, nodes', m, y);
      SameChain(nodes, nodes', n, y);
    }
  }

  /** Changing other fields than keys and parents keeps the chains. */
  lemma SameKeys(nodes: seq<CallPathNode>, nodes': seq<CallPathNode>)
    requires Rooted(nodes) && NoRepeats(nodes) && |nodes| == |nodes'|
    requires forall y | 0 <= y < |nodes| :: nodes'[y].parent == nodes[y].parent && nodes'[y].key == nodes[y].key
    ensures Rooted(nodes') && NoRepeats(nodes')
  {
    forall x, m, n | 0 <= x < |nodes'| && 0 < m < |nodes'| && 0 < n < |nodes'| && OnChain(nodes', m, x) && OnChain(nodes', n, x) && nodes'[m].key == nodes'[n].key
      ensures m == n
    {
      SameChain(nodes, nodes', m, x);
      SameChain(nodes, nodes', n, x);
    }
  }

  // ---------------------------------------------------------------- sums over nodes

  /** The statistics of the nodes below `n` that are in `chosen`. */
  ghost function Sum(nodes: seq<CallPathNode>, chosen: iset<NodeId>, n: nat): nat
    requires n <= |nodes|
  {
    if n == 0 then 0 else Sum(nodes, chosen, n - 1) + if n - 1 in chosen then nodes[n - 1].statistics else 0
  }

  lemma {:induction false} SumUnion(nodes: seq<CallPathNode>, a: iset<NodeId>, b: iset<NodeId>, c: iset<NodeId>, n: nat)
    requires n <= |nodes| && forall x | 0 <= x < n :: (x in c <==> x in a || x in b) && !(x in a && x in b)
    ensures Sum(nodes, c, n) == Sum(nodes, a, n) + Sum(nodes, b, n)
  {
    if n > 0 {
      SumUnion(nodes, a, b, c, n - 1);
    }
  }

  lemma {:induction false} SumSame(nodes: seq<CallPathNode>, nodes': seq<CallPathNode>, a: iset<NodeId>, b: iset<NodeId>, n: nat)
    requires n <= |nodes| && n <= |nodes'| && forall x | 0 <= x < n :: (x in a <==> x in b) && nodes[x].statistics == nodes'[x].statistics
    ensures Sum(nodes, a, n) == Sum(nodes', b, n)
  {
    if n > 0 {
      SumSame(nodes, nodes', a, b, n - 1);
    }
  }

  lemma {:induction false} SumOne(nodes: seq<CallPathNode>, a: iset<NodeId>, j: NodeId, n: nat)
    requires n <= |nodes| && j < |nodes| && forall x | 0 <= x < n :: x in a <==> x == j
    ensures Sum(nodes, a, n) == if j < n then nodes[j].statistics else 0
  {
    if n > 0 {
      SumOne(nodes, a, j, n - 1);
    }
  }

  lemma {:induction false} SumNone(nodes: seq<CallPathNode>, a: iset<NodeId>, n: nat)
    requires n <= |nodes| && forall x | 0 <= x < n :: x !in a
    ensures Sum(nodes, a, n) == 0
  {
    if n > 0 {
      SumNone(nodes, a, n - 1);
    }
  }

  /** The nodes at or below `m`. */
  ghost function Under(nodes: seq<CallPathNode>, m: NodeId): iset<NodeId>
    requires Rooted(nodes)
  {
    iset x | 0 <= x < |nodes| && OnChain(nodes, m, x)
  }

  /** The chain from `x` leads to `j` through nodes not before `i`. */
  predicate Passes(nodes: seq<CallPathNode>, i: nat, j: NodeId, x: NodeId)
    requires Rooted(nodes) && x < |nodes|
    decreases x
  {
    x == j || (x > 0 && x >= i && Passes(nodes, i, j, nodes[x].parent))
  }

  ghost function Passing(nodes: seq<CallPathNode>, i: nat, j: NodeId): iset<NodeId>
    requires Rooted(nodes)
  {
    iset x | 0 <= x < |nodes| && Passes(nodes, i, j, x)
  }

  /** Some node from `i` on with the key lies on the chain of `x`. */
  ghost predicate HasKey(nodes: seq<CallPathNode>, i: nat, k: Key, x: NodeId)
    requires Rooted(nodes) && x < |nodes|
  {
    exists m | i <= m < |nodes| && 0 < m :: OnChain(nodes, m, x) && nodes[m].key == Some(k)
  }

  /** The nodes at or below a node with the key. */
  ghost function Keyed(nodes: seq<CallPathNode>, i: nat, k: Key): iset<NodeId>
    requires Rooted(nodes)
  {
    iset x | 0 <= x < |nodes| && HasKey(nodes, i, k, x)
  }

  /** Below a node every index is greater, so a chain that reaches `j` passes. */
  lemma {:induction false} PassesIsChain(nodes: seq<CallPathNode>, i: nat, j: NodeId, x: NodeId)
    requires Rooted(nodes) && x < |nodes| && i <= j + 1
    ensures Passes(nodes, i, j, x) == OnChain(nodes, j, x)
    decreases x
  {
    if x > 0 && x != j {
      PassesIsChain(nodes, i, j, nodes[x].parent);
      if OnChain(nodes, j, nodes[x].parent) {
        ChainBound(nodes, j, nodes[x].parent);
      }
    }
  }

  /** Letting `i` be passed adds, at its parent, what lies under it. */
  lemma {:induction false} PassesStep(nodes: seq<CallPathNode>, i: nat, j: NodeId, x: NodeId)
    requires Rooted(nodes) && x < |nodes| && 0 < i < |nodes|
    ensures Passes(nodes, i, j, x) <==> Passes(nodes, i + 1, j, x) || (j == nodes[i].parent && OnChain(nodes, i, x))
    ensures !(Passes(nodes, i + 1, j, x) && j == nodes[i].parent && OnChain(nodes, i, x))
    decreases x
  {
    if x > 0 {
      PassesStep(nodes, i, j, nodes[x].parent);
      if OnChain(nodes, i, x) {
        ChainBound(nodes, i, x);
      }
      if x == i {
        PassesAt(nodes, i, j, nodes[i].parent);
      }
    } else if OnChain(nodes, i, x) {
      ChainBound(nodes, i, x);
    }
  }

  /** From a node before `i` only itself is reached. */
  lemma PassesAt(nodes: seq<CallPathNode>, i: nat, j: NodeId, x: NodeId)
    requires Rooted(nodes) && x < |nodes| && x < i
    ensures Passes(nodes, i, j, x) <==> x == j
    ensures !OnChain(nodes, i, x)
  {
    if OnChain(nodes, i, x) {
      ChainBound(nodes, i, x);
    }
  }

  // ---------------------------------------------------------------- the summary

  datatype CallSiteInfo = CallSiteInfo(count: nat, statistics: nat)

  type SummaryTable = map<Key, CallSiteInfo>

  function InfoOf(results: SummaryTable, k: Key): CallSiteInfo {
    if k in results then results[k] else CallSiteInfo(0, 0)
  }

  /** The counts of the nodes from `i` on that have the key. */
  function Counts(nodes: seq<CallPathNode>, i: nat, k: Key): nat
    requires i <= |nodes|
    decreases |nodes| - i
  {
    if i == |nodes| then 0 else Counts(nodes, i + 1, k) + if nodes[i].key == Some(k) then nodes[i].count else 0
  }

  /** The summaries of all nodes once the nodes from `i` on are done. */
  ghost predicate SummedFrom(nodes: seq<CallPathNode>, summaries: seq<nat>, i: nat)
    requires Rooted(nodes)
  {
    |summaries| == |nodes| && forall j | 0 < j < |nodes| :: summaries[j] == Sum(nodes, Passing(nodes, i, j), |nodes|)
  }

  /** The table once the nodes from `i` on are done. */
  ghost predicate TabledFrom(nodes: seq<CallPathNode>, results: SummaryTable, i: nat)
    requires Rooted(nodes) && i <= |nodes|
  {
    && (forall k :: k in results <==> exists m | i <= m < |nodes| && 0 < m :: nodes[m].key == Some(k))
    && (forall k :: InfoOf(results, k).statistics == Sum(nodes, Keyed(nodes, i, k), |nodes|))
    && (forall k :: InfoOf(results, k).count == Counts(nodes, i, k))
  }

  lemma SummedStart(nodes: seq<CallPathNode>, summaries: seq<nat>)
    requires Rooted(nodes) && |summaries| == |nodes| && forall j | 0 < j < |nodes| :: summaries[j] == nodes[j].statistics
    ensures SummedFrom(nodes, summaries, |nodes|) && TabledFrom(nodes, map[], |nodes|)
  {
    forall j | 0 < j < |nodes| ensures summaries[j] == Sum(nodes, Passing(nodes, |nodes|, j), |nodes|) {
      forall x | 0 <= x < |nodes| ensures x in Passing(nodes, |nodes|, j) <==> x == j {
        PassesAt(nodes, |nodes|, j, x);
      }
      SumOne(nodes, Passing(nodes, |nodes|, j), j, |nodes|);
    }
    forall k ensures Sum(nodes, Keyed(nodes, |nodes|, k), |nodes|) == 0 {
      SumNone(nodes, Keyed(nodes, |nodes|, k), |nodes|);
    }
  }

  /** When its turn comes, a node's summary is that of all below it. */
  lemma SummaryUnder(nodes: seq<CallPathNode>, summaries: seq<nat>, i: nat)
    requires Rooted(nodes) && 0 < i < |nodes| && SummedFrom(nodes, summaries, i + 1)
    ensures summaries[i] == Sum(nodes, Under(nodes, i), |nodes|)
  {
    forall x | 0 <= x < |nodes| ensures x in Passing(nodes, i + 1, i) <==> x in Under(nodes, i) {
      PassesIsChain(nodes, i + 1, i, x);
    }
    SumSame(nodes, nodes, Passing(nodes, i + 1, i), Under(nodes, i), |nodes|);
  }

  lemma SummedStep(nodes: seq<CallPathNode>, summaries: seq<nat>, i: nat)
    requires Rooted(nodes) && 0 < i < |nodes| && SummedFrom(nodes, summaries, i + 1)
    ensures SummedFrom(nodes, summaries[nodes[i].parent := summaries[nodes[i].parent] + summaries[i]], i)
  {
    var p := nodes[i].parent;
    SummaryUnder(nodes, summaries, i);
    forall j | 0 < j < |nodes|
      ensures Sum(nodes, Passing(nodes, i, j), |nodes|) == Sum(nodes, Passing(nodes, i + 1, j), |nodes|) + if j == p then Sum(nodes, Under(nodes, i), |nodes|) else 0
    {
      SumStep(nodes, i, j);
    }
  }

  lemma SumStep(nodes: seq<CallPathNode>, i: nat, j: NodeId)
    requires Rooted(nodes) && 0 < i < |nodes| && 0 < j < |nodes|
    ensures Sum(nodes, Passing(nodes, i, j), |nodes|) ==
      Sum(nodes, Passing(nodes, i + 1, j), |nodes|) + if j == nodes[i].parent then Sum(nodes, Under(nodes, i), |nodes|) else 0
  {
    var a, b, c := Passing(nodes, i + 1, j), Under(nodes, i), Passing(nodes, i, j);
    forall x | 0 <= x < |nodes|
      ensures x in c <==> x in a || (j == nodes[i].parent && x in b)
      ensures !(x in a && j == nodes[i].parent && x in b)
    {
      PassesStep(nodes, i, j, x);
    }
    if j == nodes[i].parent {
      SumUnion(nodes, a, b, c, |nodes|);
    } else {
      SumSame(nodes, nodes, c, a, |nodes|);
    }
  }

  lemma KeyedStep(nodes: seq<CallPathNode>, i: nat, k: Key)
    requires Rooted(nodes) && NoRepeats(nodes) && 0 < i < |nodes|
    ensures Sum(nodes, Keyed(nodes, i, k), |nodes|) ==
      Sum(nodes, Keyed(nodes, i + 1, k), |nodes|) + if nodes[i].key == Some(k) then Sum(nodes, Under(nodes, i), |nodes|) else 0
  {
    var a, b, c := Keyed(nodes, i + 1, k), Under(nodes, i), Keyed(nodes, i, k);
    forall x | 0 <= x < |nodes|
      ensures x in c <==> x in a || (nodes[i].key == Some(k) && x in b)
      ensures !(x in a && nodes[i].key == Some(k) && x in b)
    {
    }
    if nodes[i].key == Some(k) {
      SumUnion(nodes, a, b, c, |nodes|);
    } else {
      SumSame(nodes, nodes, c, a, |nodes|);
    }
  }

  function Added(results: SummaryTable, k: Key, count: nat, statistics: nat): SummaryTable {
    results[k := CallSiteInfo(InfoOf(results, k).count + count, InfoOf(results, k).statistics + statistics)]
  }

  lemma TabledStep(nodes: seq<CallPathNode>, results: SummaryTable, i: nat, sub: nat)
    requires Rooted(nodes) && NoRepeats(nodes) && 0 < i < |nodes| && TabledFrom(nodes, results, i + 1)
    requires sub == Sum(nodes, Under(nodes, i), |nodes|)
    ensures TabledFrom(nodes, Added(results, nodes[i].key.value, nodes[i].count, sub), i)
  {
    hide Sum, Keyed, Under, NoRepeats;
    var results' := Added(results, nodes[i].key.value, nodes[i].count, sub);
    forall k
      ensures k in results' <==> exists m | i <= m < |nodes| && 0 < m :: nodes[m].key == Some(k)
      ensures InfoOf(results', k).statistics == Sum(nodes, Keyed(nodes, i, k), |nodes|)
      ensures InfoOf(results', k).count == Counts(nodes, i, k)
    {
      KeyedStep(nodes, i, k);
    }
  }

  class CallPathManager {
    var nodes: seq<CallPathNode>

    ghost predicate Valid()
      reads this
    {
      Rooted(nodes) && NoRepeats(nodes) && ChildrenOk(nodes)
    }

    constructor ()
      ensures Valid() && nodes == [CallPathNode(0, None, map[], 0, 0, 0)]
    {
      nodes := [CallPathNode(0, None, map[], 0, 0, 0)];
    }

    /** The node for a call from `parent`: the nearest ancestor with the key, if there is one, or a new node. */
    method ComputeCallPath(parent: NodeId, k: Key) returns (cp: NodeId)
      requires Valid() && parent < |nodes|
      modifies this
      ensures Valid() && cp < |nodes| && nodes[cp].key == Some(k)
      ensures (nodes == old(nodes) && OnChain(nodes, cp, parent)) || (cp == |old(nodes)| && nodes == old(nodes) + [CallPathNode(parent, Some(k), map[], 0, 0, 0)])
    {
      cp := parent;
      while nodes[cp].key != Some(k)
        invariant nodes == old(nodes) && cp < |nodes| && OnChain(nodes, cp, parent)
        invariant forall m | 0 < m < |nodes| && OnChain(nodes, m, parent) && nodes[m].key == Some(k) :: OnChain(nodes, m, cp)
        decreases cp
      {
        if cp == 0 {
          var node := CallPathNode(parent, Some(k), map[], 0, 0, 0);
          AppendNoRepeats(nodes, node);
          nodes := nodes + [node];
          return |nodes| - 1;
        }
        ChainTrans(nodes, nodes[cp].parent, cp, parent);
        cp := nodes[cp].parent;
      }
    }

    /** The child of `parent` for a call, made on first use. */
    method GetCallPath(parent: Option<NodeId>, k: Key) returns (cp: NodeId)
      requires Valid() && (parent.Some? ==> parent.value < |nodes|)
      modifies this
      ensures Valid() && cp < |nodes| && nodes[cp].key == Some(k) && |old(nodes)| <= |nodes| <= |old(nodes)| + 1
      ensures forall x | 0 <= x < |old(nodes)| :: nodes[x].(children := map[]) == old(nodes)[x].(children := map[])
      ensures var p := if parent.Some? then parent.value else 0;
        && nodes[p].children == old(nodes)[p].children[k := cp]
        && (forall x | 0 <= x < |old(nodes)| && x != p :: nodes[x] == old(nodes)[x])
        && (k in old(nodes)[p].children ==> nodes == old(nodes) && cp == old(nodes)[p].children[k])
        && (k !in old(nodes)[p].children ==> OnChain(old(nodes), cp, p) || (cp == |old(nodes)| && nodes[cp].parent == p))
    {
      hide NoRepeats;
      var p := if parent.Some? then parent.value else 0;
      if k in nodes[p].children {
        return nodes[p].children[k];
      }
      cp := ComputeCallPath(p, k);
      var before := nodes;
      nodes := nodes[p := nodes[p].(children := nodes[p].children[k := cp])];
      SameKeys(before, nodes);
    }

    /** Count a call or a unit of a statistic at a node. */
    method Charge(cp: NodeId, count: nat, statistics: nat)
      requires Valid() && cp < |nodes|
      modifies this
      ensures Valid() && |nodes| == |old(nodes)|
      ensures nodes == old(nodes)[cp := old(nodes)[cp].(count := old(nodes)[cp].count + count, statistics := old(nodes)[cp].statistics + statistics)]
    {
      hide NoRepeats;
      var before := nodes;
      nodes := nodes[cp := nodes[cp].(count := nodes[cp].count + count, statistics := nodes[cp].statistics + statistics)];
      SameKeys(before, nodes);
    }

    /** The summaries, and the table of totals by key: each entry is the sum of the statistics of every node
        at or below a node with that key, each counted once. */
    method GetSummaryStatistics() returns (results: SummaryTable)
      requires Valid()
      modifies this
      ensures Valid() && |nodes| == |old(nodes)|
      ensures forall x | 0 <= x < |nodes| :: nodes[x].(summary := 0) == old(nodes)[x].(summary := 0)
      ensures forall j | 0 < j < |nodes| :: nodes[j].summary == Sum(old(nodes), Under(old(nodes), j), |nodes|)
      ensures forall k :: k in results <==> exists m | 0 < m < |nodes| :: nodes[m].key == Some(k)
      ensures forall k | k in results :: results[k].statistics == Sum(old(nodes), Keyed(old(nodes), 1, k), |nodes|)
      ensures forall k | k in results :: results[k].count == Counts(old(nodes), 1, k)
    {
      hide NoRepeats, SummedFrom, TabledFrom, Sum;
      ghost var before := nodes;
      ghost var summaries: seq<nat> := seq(|nodes|, x requires 0 <= x < |before| => if x == 0 then before[0].summary else before[x].statistics);
      results := map[];
      nodes := seq(|nodes|, x requires 0 <= x < |nodes| reads this => if x == 0 then nodes[0] else nodes[x].(summary := nodes[x].statistics));
      SummedStart(before, summaries);
      for i := |nodes| downto 1
        invariant |nodes| == |before| == |summaries|
        invariant forall x | 0 <= x < |nodes| :: nodes[x] == before[x].(summary := summaries[x])
        invariant SummedFrom(before, summaries, i) && TabledFrom(before, results, i)
      {
        var p := nodes[i].parent;
        SummaryUnder(before, summaries, i);
        SummedStep(before, summaries, i);
        TabledStep(before, results, i, summaries[i]);
        nodes := nodes[p := nodes[p].(summary := nodes[p].summary + nodes[i].summary)];
        results := Added(results, nodes[i].key.value, nodes[i].count, nodes[i].summary);
        summaries := summaries[p := summaries[p] + summaries[i]];
      }
      SameKeys(before, nodes);
      Finished(before, summaries, results);
    }
  }

  lemma Finished(nodes: seq<CallPathNode>, summaries: seq<nat>, results: SummaryTable)
    requires Rooted(nodes) && SummedFrom(nodes, summaries, 1) && TabledFrom(nodes, results, 1)
    ensures forall j | 0 < j < |nodes| :: summaries[j] == Sum(nodes, Under(nodes, j), |nodes|)
    ensures forall k :: k in results <==> exists m | 0 < m < |nodes| :: nodes[m].key == Some(k)
    ensures forall k | k in results :: results[k].statistics == Sum(nodes, Keyed(nodes, 1, k), |nodes|) && results[k].count == Counts(nodes, 1, k)
  {
    forall j | 0 < j < |nodes| ensures summaries[j] == Sum(nodes, Under(nodes, j), |nodes|) {
      forall x | 0 <= x < |nodes| ensures x in Passing(nodes, 1, j) <==> x in Under(nodes, j) {
        PassesIsChain(nodes, 1, j, x);
      }
      SumSame(nodes, nodes, Passing(nodes, 1, j), Under(nodes, j), |nodes|);
    }
    forall k | k in results ensures results[k].statistics == Sum(nodes, Keyed(nodes, 1, k), |nodes|) {
      assert results[k] == InfoOf(results, k);
    }
  }
}
