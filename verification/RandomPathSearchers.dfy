/** `PTree` and `RandomPathSearcher`: whatever the order in which states are attached, handed to searchers,
taken from them and removed, a link carries a searcher's bit exactly when a leaf below belongs to it.
*/
module RandomPathSearchers {
  import opened Basics
  import opened ProcessTrees
  import opened BinaryMeanings

  type Owners = map<Searcher, set<State>>

  function OwnedBy(owned: Owners, s: Searcher): set<State> {
    if s in owned then owned[s] else {}
  }

  /** The states know their leaves. */
  predicate Named(t: Tree, ptreeNode: map<State, NodeId>) {
    && (forall st | st in ptreeNode :: ptreeNode[st] in t.nodes && t.nodes[ptreeNode[st]].state == Some(st))
    && (forall n | n in t.nodes && t.nodes[n].state.Some? :: t.nodes[n].state.value in ptreeNode && ptreeNode[t.nodes[n].state.value] == n)
  }

  /** All nodes but `hole` are leaves with a state or inner nodes with a child. */
  ghost predicate Shaped(t: Tree, rank: map<NodeId, nat>, bound: nat, ptreeNode: map<State, NodeId>, nextNode: NodeId, hole: Option<NodeId>) {
    && Formed(t, rank, bound) && Named(t, ptreeNode)
    && (forall n | n in t.nodes && hole != Some(n) :: Leafy(t, n))
    && (forall n | n in t.nodes :: n < nextNode) && (t.root.ptr.Some? ==> t.root.ptr.value < nextNode)
  }

  /** Every tag is right for every searcher. */
  ghost predicate Tagged(t: Tree, owned: Owners)
    requires HasParents(t)
  {
    forall s: Searcher :: AllConsistent(t, s, OwnedBy(owned, s))
  }

  /** A tree of this shape with every tag right. */
  ghost predicate Good(t: Tree, rank: map<NodeId, nat>, bound: nat, ptreeNode: map<State, NodeId>, nextNode: NodeId, owned: Owners) {
    Shaped(t, rank, bound, ptreeNode, nextNode, None) && HasParents(t) && Tagged(t, owned)
  }

  lemma FormedParents(t: Tree, rank: map<NodeId, nat>, bound: nat)
    requires Formed(t, rank, bound)
    ensures HasParents(t)
  {
    forall n | n in t.nodes ensures t.nodes[n].parent.Some? ==> t.nodes[n].parent.value in t.nodes {
      assert FormedAt(t, rank, bound, n);
    }
  }

  lemma WithTagShaped(t: Tree, rank: map<NodeId, nat>, bound: nat, ptreeNode: map<State, NodeId>, nextNode: NodeId, n: NodeId, tag: set<Searcher>)
    requires Shaped(t, rank, bound, ptreeNode, nextNode, None) && n in t.nodes
    ensures Shaped(WithTag(t, n, tag), rank, bound, ptreeNode, nextNode, None)
  {
    hide FormedAt, WithTag, LinkTo;
    WithTagFormed(t, rank, bound, n, tag);
    WithTagLinks(t, rank, bound, n, tag);
    RootKept(t, rank, bound, n, tag);
  }

  lemma RootKept(t: Tree, rank: map<NodeId, nat>, bound: nat, n: NodeId, tag: set<Searcher>)
    requires Formed(t, rank, bound) && n in t.nodes
    ensures WithTag(t, n, tag).root.ptr == t.root.ptr
  {
  }

  /** Taking or giving one state matters at its leaf alone. */
  lemma OneOwnerChange(t: Tree, ptreeNode: map<State, NodeId>, s: Searcher, owned: set<State>, owned': set<State>, st: State)
    requires HasParents(t) && Named(t, ptreeNode) && st in ptreeNode && AllConsistent(t, s, owned)
    requires forall x | x != st :: x in owned <==> x in owned'
    ensures ConsistentBut(t, s, owned', Some(ptreeNode[st]))
  {
    forall n | n in t.nodes && n != ptreeNode[st] ensures Consistent(t, n, s, owned') {
      assert Consistent(t, n, s, owned);
    }
  }

  /** Other searchers keep their bits. */
  lemma OthersKept(t: Tree, rank: map<NodeId, nat>, bound: nat, n: NodeId, tag: set<Searcher>, s: Searcher, owned: Owners)
    requires Formed(t, rank, bound) && n in t.nodes && HasParents(t)
    requires forall u: Searcher | u != s :: u in tag <==> u in LinkTo(t, n).tag
    requires forall u: Searcher | u != s :: AllConsistent(t, u, OwnedBy(owned, u))
    ensures HasParents(WithTag(t, n, tag))
    ensures forall u: Searcher | u != s :: AllConsistent(WithTag(t, n, tag), u, OwnedBy(owned, u))
  {
    hide FormedAt, WithTag, LinkTo, AllConsistent;
    WithTagFormed(t, rank, bound, n, tag);
    FormedParents(WithTag(t, n, tag), rank, bound);
    forall u: Searcher | u != s ensures AllConsistent(WithTag(t, n, tag), u, OwnedBy(owned, u)) {
      OtherSearcher(t, rank, bound, n, tag, u, OwnedBy(owned, u));
    }
  }

  /** Ranks fall on the way up. */
  lemma ParentRank(t: Tree, rank: map<NodeId, nat>, bound: nat, n: NodeId)
    requires Formed(t, rank, bound) && n in t.nodes
    ensures n in rank && (t.nodes[n].parent.Some? ==> t.nodes[n].parent.value in t.nodes && t.nodes[n].parent.value in rank && rank[t.nodes[n].parent.value] < rank[n])
  {
    assert FormedAt(t, rank, bound, n);
    if t.nodes[n].parent.Some? {
      assert FormedAt(t, rank, bound, t.nodes[n].parent.value);
    }
  }

  /** With the hole gone, every tag is right. */
  lemma NoHole(t: Tree, s: Searcher, owned: Owners, owned': set<State>, hole: Option<NodeId>)
    requires HasParents(t) && ConsistentBut(t, s, owned', hole)
    requires hole.Some? ==> hole.value in t.nodes && Consistent(t, hole.value, s, owned')
    requires forall u: Searcher | u != s :: AllConsistent(t, u, OwnedBy(owned, u))
    ensures Tagged(t, owned[s := owned'])
  {
    hide Consistent;
    assert AllConsistent(t, s, owned');
    var after := owned[s := owned'];
    forall u: Searcher ensures AllConsistent(t, u, OwnedBy(after, u)) {
      assert u != s ==> OwnedBy(after, u) == OwnedBy(owned, u);
    }
  }

  /** A link to a node is not null. */
  lemma LinkPoints(t: Tree, rank: map<NodeId, nat>, bound: nat, n: NodeId)
    requires Formed(t, rank, bound) && n in t.nodes && HasParents(t)
    ensures LinkTo(t, n).ptr == Some(n)
  {
    assert FormedAt(t, rank, bound, n);
  }

  /** Set the bit of `s` from `pnode` upwards until it is set. */
  method SetBits(tree: Tree, s: Searcher, n: NodeId, ghost rank: map<NodeId, nat>, ghost bound: nat, ghost ptreeNode: map<State, NodeId>,
      ghost nextNode: NodeId, ghost owned: Owners, ghost owned': set<State>) returns (t: Tree)
    requires Shaped(tree, rank, bound, ptreeNode, nextNode, None) && HasParents(tree) && n in tree.nodes
    requires ConsistentBut(tree, s, owned', Some(n)) && Wants(tree.nodes[n], s, owned')
    requires forall u: Searcher | u != s :: AllConsistent(tree, u, OwnedBy(owned, u))
    ensures Shaped(t, rank, bound, ptreeNode, nextNode, None) && HasParents(t) && Tagged(t, owned[s := owned'])
    ensures t.nodes.Keys == tree.nodes.Keys
  {
    hide FormedAt, WithTag, LinkTo, Wants, AllConsistent;
    t := tree;
    var pnode: Option<NodeId> := Some(n);
    ParentRank(t, rank, bound, n);
    while pnode.Some? && !IsOurs(LinkTo(t, pnode.value), s)
      invariant t.nodes.Keys == tree.nodes.Keys
      invariant Shaped(t, rank, bound, ptreeNode, nextNode, None) && HasParents(t)
      invariant pnode.Some? ==> pnode.value in t.nodes && pnode.value in rank && Wants(t.nodes[pnode.value], s, owned')
      invariant ConsistentBut(t, s, owned', pnode)
      invariant forall u: Searcher | u != s :: AllConsistent(t, u, OwnedBy(owned, u))
      decreases if pnode.Some? then rank[pnode.value] + 1 else 0
    {
      hide ConsistentBut, Named;
      var childTag := LinkTo(t, pnode.value).tag + {s};
      SetBit(t, rank, bound, pnode.value, s, owned');
      WithTagShaped(t, rank, bound, ptreeNode, nextNode, pnode.value, childTag);
      WithTagLinks(t, rank, bound, pnode.value, childTag);
      OthersKept(t, rank, bound, pnode.value, childTag, s, owned);
      ParentRank(t, rank, bound, pnode.value);
      var parent := t.nodes[pnode.value].parent;
      t := WithTag(t, pnode.value, childTag);
      pnode := parent;
    }
    if pnode.Some? {
      LinkPoints(t, rank, bound, pnode.value);
    }
    NoHole(t, s, owned, owned', pnode);
  }

  lemma BitAtLeaf(t: Tree, s: Searcher, owned: set<State>, n: NodeId)
    requires HasParents(t) && AllConsistent(t, s, owned) && n in t.nodes && t.nodes[n].state.Some? && t.nodes[n].state.value in owned
    ensures s in LinkTo(t, n).tag
  {
    assert Consistent(t, n, s, owned);
  }

  /** Clear the bit of `s` from leaf `n` upwards while no child needs it. Wherever it is to be cleared, it is
      set. */
  method ClearBits(tree: Tree, s: Searcher, n: NodeId, ghost rank: map<NodeId, nat>, ghost bound: nat, ghost ptreeNode: map<State, NodeId>,
      ghost nextNode: NodeId, ghost owned: Owners, ghost owned': set<State>) returns (t: Tree)
    requires Shaped(tree, rank, bound, ptreeNode, nextNode, None) && HasParents(tree) && n in tree.nodes
    requires ConsistentBut(tree, s, owned', Some(n)) && s in LinkTo(tree, n).tag
    requires tree.nodes[n].state.Some? && tree.nodes[n].state.value !in owned'
    requires forall u: Searcher | u != s :: AllConsistent(tree, u, OwnedBy(owned, u))
    ensures Shaped(t, rank, bound, ptreeNode, nextNode, None) && HasParents(t) && Tagged(t, owned[s := owned'])
    ensures t.nodes.Keys == tree.nodes.Keys
  {
    hide FormedAt, WithTag, LinkTo, AllConsistent;
    t := tree;
    var pnode: Option<NodeId> := Some(n);
    ParentRank(t, rank, bound, n);
    while pnode.Some? && !IsOurs(t.nodes[pnode.value].left, s) && !IsOurs(t.nodes[pnode.value].right, s)
      invariant t.nodes.Keys == tree.nodes.Keys
      invariant Shaped(t, rank, bound, ptreeNode, nextNode, None) && HasParents(t)
      invariant pnode.Some? ==> pnode.value in t.nodes && pnode.value in rank && s in LinkTo(t, pnode.value).tag
      invariant pnode.Some? && t.nodes[pnode.value].state.Some? ==> t.nodes[pnode.value].state.value !in owned'
      invariant ConsistentBut(t, s, owned', pnode)
      invariant forall u: Searcher | u != s :: AllConsistent(t, u, OwnedBy(owned, u))
      decreases if pnode.Some? then rank[pnode.value] + 1 else 0
    {
      hide ConsistentBut, Named;
      LinkPoints(t, rank, bound, pnode.value);
      assert IsOurs(LinkTo(t, pnode.value), s);
      var childTag := LinkTo(t, pnode.value).tag - {s};
      ClearBit(t, rank, bound, pnode.value, s, owned');
      WithTagShaped(t, rank, bound, ptreeNode, nextNode, pnode.value, childTag);
      WithTagLinks(t, rank, bound, pnode.value, childTag);
      OthersKept(t, rank, bound, pnode.value, childTag, s, owned);
      ParentRank(t, rank, bound, pnode.value);
      ParentInner(t, rank, bound, pnode.value);
      var parent := t.nodes[pnode.value].parent;
      t := WithTag(t, pnode.value, childTag);
      pnode := parent;
    }
    if pnode.Some? {
      InnerConsistent(t, rank, bound, pnode.value, s, owned');
    }
    NoHole(t, s, owned, owned', pnode);
  }

  /** A parent has no state. */
  lemma ParentInner(t: Tree, rank: map<NodeId, nat>, bound: nat, n: NodeId)
    requires Formed(t, rank, bound) && (forall m | m in t.nodes :: Leafy(t, m)) && n in t.nodes
    ensures t.nodes[n].parent.Some? ==> t.nodes[n].parent.value in t.nodes && t.nodes[t.nodes[n].parent.value].state.None?
  {
    assert FormedAt(t, rank, bound, n);
    if t.nodes[n].parent.Some? {
      assert Leafy(t, t.nodes[n].parent.value);
    }
  }

  lemma InnerConsistent(t: Tree, rank: map<NodeId, nat>, bound: nat, n: NodeId, s: Searcher, owned: set<State>)
    requires Formed(t, rank, bound) && HasParents(t) && n in t.nodes && Leafy(t, n) && s in LinkTo(t, n).tag
    requires IsOurs(t.nodes[n].left, s) || IsOurs(t.nodes[n].right, s)
    ensures Consistent(t, n, s, owned)
  {
  }

  // ---------------------------------------------------------------- attaching and removing

  /** `t'` is `t` where the leaf `n` of `es` has the new leaves `l` of `ns` and `r` of `es`, and `rank'` ranks it. */
  ghost predicate IsAttached(t: Tree, rank: map<NodeId, nat>, n: NodeId, l: NodeId, r: NodeId, ns: State, es: State, t': Tree, rank': map<NodeId, nat>) {
    && n in t.nodes && n in rank && t.nodes[n].state == Some(es) && Childless(t.nodes[n]) && HasParents(t)
    && l !in t.nodes && r !in t.nodes && l != r && t.root.ptr != Some(l) && t.root.ptr != Some(r)
    && t' == Attached(t, n, l, r, ns, es) && rank' == rank[l := rank[n] + 1][r := rank[n] + 1]
  }

  /** The nodes of the new tree, one by one. */
  lemma AttachedNodes(t: Tree, rank: map<NodeId, nat>, n: NodeId, l: NodeId, r: NodeId, ns: State, es: State, t': Tree, rank': map<NodeId, nat>)
    requires IsAttached(t, rank, n, l, r, ns, es, t', rank')
    ensures t'.nodes.Keys == t.nodes.Keys + {l, r} && t'.root == t.root
    ensures t'.nodes[n].state.None? && !Childless(t'.nodes[n])
    ensures t'.nodes[l] == Leaf(Some(n), ns) && t'.nodes[r] == Leaf(Some(n), es)
    ensures forall m | m in t.nodes && m != n :: t'.nodes[m] == t.nodes[m]
  {
    hide LinkTo, HasParents;
  }

  lemma AttachedNamed(t: Tree, rank: map<NodeId, nat>, ptreeNode: map<State, NodeId>, l: NodeId, r: NodeId, es: State, ns: State, t': Tree, rank': map<NodeId, nat>)
    requires Named(t, ptreeNode) && es in ptreeNode && ns !in ptreeNode && IsAttached(t, rank, ptreeNode[es], l, r, ns, es, t', rank')
    ensures Named(t', ptreeNode[ns := l][es := r])
  {
    AttachedNodes(t, rank, ptreeNode[es], l, r, ns, es, t', rank');
    hide IsAttached;
  }

  /** The new states and leaves of a fork: `names'` are the leaves of the states in the new tree. */
  ghost predicate Attaches(t: Tree, rank: map<NodeId, nat>, ptreeNode: map<State, NodeId>, nextNode: NodeId, es: State, ns: State,
      t': Tree, rank': map<NodeId, nat>, names': map<State, NodeId>) {
    && es in ptreeNode && ns !in ptreeNode && names' == ptreeNode[ns := nextNode][es := nextNode + 1]
    && IsAttached(t, rank, ptreeNode[es], nextNode, nextNode + 1, ns, es, t', rank')
  }

  lemma AttachedShaped(t: Tree, rank: map<NodeId, nat>, bound: nat, ptreeNode: map<State, NodeId>, nextNode: NodeId, es: State, ns: State,
      t': Tree, rank': map<NodeId, nat>, names': map<State, NodeId>)
    requires Attaches(t, rank, ptreeNode, nextNode, es, ns, t', rank', names') && Shaped(t, rank, bound, ptreeNode, nextNode, None)
    ensures Shaped(t', rank', bound + 1, names', nextNode + 2, None)
  {
    hide FormedAt, LinkTo, Named, Attached;
    var n, l, r := ptreeNode[es], nextNode, nextNode + 1;
    AttachedFormed(t, rank, bound, n, l, r, ns, es);
    AttachedNamed(t, rank, ptreeNode, l, r, es, ns, t', rank');
    AttachedNodes(t, rank, n, l, r, ns, es, t', rank');
    hide Formed, IsAttached, HasParents;
    forall m | m in t'.nodes ensures Leafy(t', m) {
      if m in t.nodes && m != n {
        assert Leafy(t, m);
      }
    }
  }

  lemma AttachedTagged(t: Tree, rank: map<NodeId, nat>, bound: nat, n: NodeId, l: NodeId, r: NodeId, ns: State, es: State, owned: Owners, t': Tree, rank': map<NodeId, nat>)
    requires Formed(t, rank, bound) && IsAttached(t, rank, n, l, r, ns, es, t', rank') && Formed(t', rank', bound + 1)
    requires Tagged(t, owned) && forall s: Searcher :: ns !in OwnedBy(owned, s)
    ensures HasParents(t') && Tagged(t', owned)
  {
    hide FormedAt, LinkTo, AllConsistent, Attached;
    FormedParents(t', rank', bound + 1);
    forall s: Searcher ensures AllConsistent(t', s, OwnedBy(owned, s)) {
      AttachedConsistent(t, rank, bound, n, l, r, ns, es, s, OwnedBy(owned, s));
    }
  }

  lemma LeafRank(t: Tree, rank: map<NodeId, nat>, bound: nat, ptreeNode: map<State, NodeId>, nextNode: NodeId, es: State)
    requires Shaped(t, rank, bound, ptreeNode, nextNode, None) && es in ptreeNode
    ensures ptreeNode[es] in t.nodes && ptreeNode[es] in rank && t.nodes[ptreeNode[es]].state == Some(es) && Childless(t.nodes[ptreeNode[es]])
    ensures nextNode !in t.nodes && nextNode + 1 !in t.nodes && t.root.ptr != Some(nextNode) && t.root.ptr != Some(nextNode + 1)
  {
    hide FormedAt;
    ParentRank(t, rank, bound, ptreeNode[es]);
    assert Leafy(t, ptreeNode[es]);
  }

  lemma AttachedGood(t: Tree, rank: map<NodeId, nat>, bound: nat, ptreeNode: map<State, NodeId>, nextNode: NodeId, es: State, ns: State, owned: Owners,
      t': Tree, rank': map<NodeId, nat>, names': map<State, NodeId>)
    requires Attaches(t, rank, ptreeNode, nextNode, es, ns, t', rank', names') && Good(t, rank, bound, ptreeNode, nextNode, owned)
    requires forall s: Searcher :: ns !in OwnedBy(owned, s)
    ensures Good(t', rank', bound + 1, names', nextNode + 2, owned) && t'.nodes != map[]
  {
    hide Tagged, Named, Formed, FormedAt, Leafy, Attached;
    AttachedShaped(t, rank, bound, ptreeNode, nextNode, es, ns, t', rank', names');
    AttachedTagged(t, rank, bound, ptreeNode[es], nextNode, nextNode + 1, ns, es, owned, t', rank');
    AttachedNodes(t, rank, ptreeNode[es], nextNode, nextNode + 1, ns, es, t', rank');
    assert nextNode in t'.nodes;
  }

  /** The link to a node that no searcher wants has no bit. */
  lemma NoBits(t: Tree, owned: Owners, n: NodeId)
    requires HasParents(t) && Tagged(t, owned) && n in t.nodes && Childless(t.nodes[n])
    requires t.nodes[n].state.Some? ==> forall s: Searcher :: t.nodes[n].state.value !in OwnedBy(owned, s)
    ensures LinkTo(t, n).tag == {}
  {
    forall s: Searcher ensures s !in LinkTo(t, n).tag {
      assert AllConsistent(t, s, OwnedBy(owned, s));
      assert Consistent(t, n, s, OwnedBy(owned, s));
    }
  }

  /** The names after node `n` is gone. */
  function NamesWithout(t: Tree, n: NodeId, ptreeNode: map<State, NodeId>): map<State, NodeId>
    requires n in t.nodes
  {
    if t.nodes[n].state.Some? then ptreeNode - {t.nodes[n].state.value} else ptreeNode
  }

  /** Names hold while states stay where they are. */
  lemma StillNamed(t: Tree, t': Tree, n: NodeId, ptreeNode: map<State, NodeId>)
    requires Named(t, ptreeNode) && n in t.nodes && t'.nodes.Keys == t.nodes.Keys - {n}
    requires forall m | m in t.nodes && m != n :: t'.nodes[m].state == t.nodes[m].state
    ensures Named(t', NamesWithout(t, n, ptreeNode))
  {
  }

  lemma UnlinkedShaped(t: Tree, rank: map<NodeId, nat>, bound: nat, ptreeNode: map<State, NodeId>, nextNode: NodeId, n: NodeId)
    requires Shaped(t, rank, bound, ptreeNode, nextNode, Some(n)) && n in t.nodes && Childless(t.nodes[n])
    ensures Shaped(Unlinked(t, n), rank, bound, NamesWithout(t, n, ptreeNode), nextNode, t.nodes[n].parent)
    ensures var p := t.nodes[n].parent; p.Some? ==>
      p.value in Unlinked(t, n).nodes && Unlinked(t, n).nodes[p.value].state.None? &&
      (Unlinked(t, n).nodes[p.value].left.ptr.None? || Unlinked(t, n).nodes[p.value].right.ptr.None?)
  {
    ParentRank(t, rank, bound, n);
    UpInner(t, rank, bound, n);
    hide FormedAt, Unlinked, NamesWithout, Named;
    UnlinkedFormed(t, rank, bound, n);
    StillNamed(t, Unlinked(t, n), n, ptreeNode);
    hide Formed;
    forall m | m in Unlinked(t, n).nodes && t.nodes[n].parent != Some(m) ensures Leafy(Unlinked(t, n), m) {
      assert Leafy(t, m) && Unlinked(t, n).nodes[m] == t.nodes[m];
    }
  }

  /** A node with a child has no state. */
  lemma UpInner(t: Tree, rank: map<NodeId, nat>, bound: nat, n: NodeId)
    requires Formed(t, rank, bound) && n in t.nodes && (forall m | m in t.nodes && m != n :: Leafy(t, m))
    ensures t.nodes[n].parent.Some? ==> t.nodes[n].parent.value in t.nodes && t.nodes[t.nodes[n].parent.value].state.None?
  {
    ParentRank(t, rank, bound, n);
    if t.nodes[n].parent.Some? {
      assert FormedAt(t, rank, bound, n);
      assert Leafy(t, t.nodes[n].parent.value);
    }
  }

  lemma UnlinkedTagged(t: Tree, rank: map<NodeId, nat>, bound: nat, n: NodeId, owned: Owners)
    requires Formed(t, rank, bound) && n in t.nodes && Childless(t.nodes[n]) && LinkTo(t, n).tag == {} && Tagged(t, owned)
    requires Formed(Unlinked(t, n), rank, bound)
    ensures HasParents(Unlinked(t, n)) && Tagged(Unlinked(t, n), owned)
  {
    hide FormedAt, LinkTo, AllConsistent, Unlinked;
    FormedParents(Unlinked(t, n), rank, bound);
    var t' := Unlinked(t, n);
    forall s: Searcher ensures AllConsistent(t', s, OwnedBy(owned, s)) {
      UnlinkedConsistent(t, rank, bound, n, s, OwnedBy(owned, s));
    }
  }

  lemma CompressedShaped(t: Tree, rank: map<NodeId, nat>, bound: nat, ptreeNode: map<State, NodeId>, nextNode: NodeId, n: NodeId)
    requires Shaped(t, rank, bound, ptreeNode, nextNode, None)
    requires n in t.nodes && OneChild(t.nodes[n]) && t.nodes[n].state.None?
    ensures Shaped(Compressed(t, n), rank, bound, ptreeNode, nextNode, None) && Compressed(t, n).nodes != map[]
  {
    var c := OnlyChild(t.nodes[n]).ptr.value;
    CompressedRoot(t, rank, bound, n);
    hide FormedAt, Compressed, OneChild, OnlyChild;
    CompressedFormed(t, rank, bound, n);
    StillNamed(t, Compressed(t, n), n, ptreeNode);
  }

  lemma CompressedRoot(t: Tree, rank: map<NodeId, nat>, bound: nat, n: NodeId)
    requires Formed(t, rank, bound) && n in t.nodes && OneChild(t.nodes[n])
    ensures Compressed(t, n).nodes != map[] && (Compressed(t, n).root == t.root ||
      (Compressed(t, n).root.ptr.Some? && Compressed(t, n).root.ptr.value in t.nodes))
  {
    assert FormedAt(t, rank, bound, n);
    var c := OnlyChild(t.nodes[n]).ptr.value;
    assert FormedAt(t, rank, bound, c);
    ChildNotParent(t, rank, bound, n);
    hide Formed, Compressed;
    CompressedNode(t, rank, bound, n, c);
  }

  lemma CompressedTagged(t: Tree, rank: map<NodeId, nat>, bound: nat, n: NodeId, owned: Owners)
    requires Formed(t, rank, bound) && HasParents(t) && Tagged(t, owned)
    requires n in t.nodes && OneChild(t.nodes[n]) && t.nodes[n].state.None? && Formed(Compressed(t, n), rank, bound)
    ensures HasParents(Compressed(t, n)) && Tagged(Compressed(t, n), owned)
  {
    hide FormedAt, LinkTo, AllConsistent, Compressed;
    var t' := Compressed(t, n);
    FormedParents(t', rank, bound);
    forall s: Searcher ensures AllConsistent(t', s, OwnedBy(owned, s)) {
      CompressedConsistent(t, rank, bound, n, s, OwnedBy(owned, s));
    }
  }

  lemma LeafOf(t: Tree, ptreeNode: map<State, NodeId>, es: State)
    requires Named(t, ptreeNode) && es in ptreeNode
    ensures ptreeNode[es] in t.nodes && t.nodes[ptreeNode[es]].state == Some(es)
  {
  }

  lemma RootTag(t: Tree, rank: map<NodeId, nat>, bound: nat, n: NodeId)
    requires Formed(t, rank, bound) && n in t.nodes && HasParents(t) && LinkTo(t, n).tag == {} && Childless(t.nodes[n])
    ensures Unlinked(t, n).nodes == map[] ==> Unlinked(t, n).root.tag == {}
  {
    hide FormedAt, Unlinked;
    ParentRank(t, rank, bound, n);
    UnlinkedFormed(t, rank, bound, n);
    if t.nodes[n].parent.Some? {
      assert t.nodes[n].parent.value in Unlinked(t, n).nodes;
    }
  }

  /** Delete the leaf `leaf`, and then upwards every node left without children. The result is the node at
      which this stopped, which has one child left. */
  method Prune(tree: Tree, leaf: NodeId, ghost rank: map<NodeId, nat>, ghost bound: nat, ptreeNode: map<State, NodeId>, ghost nextNode: NodeId, ghost owned: Owners)
      returns (t: Tree, n: Option<NodeId>, names: map<State, NodeId>)
    requires Shaped(tree, rank, bound, ptreeNode, nextNode, None) && HasParents(tree) && Tagged(tree, owned)
    requires leaf in tree.nodes && tree.nodes[leaf].state.Some?
    requires forall s: Searcher :: tree.nodes[leaf].state.value !in OwnedBy(owned, s)
    ensures Shaped(t, rank, bound, names, nextNode, None) && HasParents(t) && Tagged(t, owned)
    ensures names == ptreeNode - {tree.nodes[leaf].state.value}
    ensures n.Some? ==> n.value in t.nodes && OneChild(t.nodes[n.value]) && t.nodes[n.value].state.None?
    ensures t.nodes == map[] ==> t.root.tag == {}
  {
    hide FormedAt, AllConsistent, Tagged, Named, Unlinked, LinkTo;
    assert Leafy(tree, leaf);
    NoBits(tree, owned, leaf);
    RootTag(tree, rank, bound, leaf);
    ParentRank(tree, rank, bound, leaf);
    UnlinkedShaped(tree, rank, bound, ptreeNode, nextNode, leaf);
    UnlinkedTagged(tree, rank, bound, leaf, owned);
    t, n := Unlinked(tree, leaf), tree.nodes[leaf].parent;
    names := ptreeNode - {tree.nodes[leaf].state.value};
    while n.Some? && Childless(t.nodes[n.value])
      invariant Shaped(t, rank, bound, names, nextNode, n) && HasParents(t) && Tagged(t, owned)
      invariant n.Some? ==> n.value in t.nodes && n.value in rank && t.nodes[n.value].state.None?
      invariant n.Some? ==> t.nodes[n.value].left.ptr.None? || t.nodes[n.value].right.ptr.None?
      invariant t.nodes == map[] ==> t.root.tag == {}
      decreases if n.Some? then rank[n.value] + 1 else 0
    {
      NoBits(t, owned, n.value);
      RootTag(t, rank, bound, n.value);
      ParentRank(t, rank, bound, n.value);
      UnlinkedShaped(t, rank, bound, names, nextNode, n.value);
      UnlinkedTagged(t, rank, bound, n.value, owned);
      t, n := Unlinked(t, n.value), t.nodes[n.value].parent;
    }
  }

  class PTree {
    var tree: Tree
    var ptreeNode: map<State, NodeId>
    var nextNode: NodeId
    var registeredIds: nat
    ghost var rank: map<NodeId, nat>
    ghost var bound: nat
    /** The states each searcher tracks. */
    ghost var owned: Owners

    ghost predicate Valid()
      reads this
    {
      && Good(tree, rank, bound, ptreeNode, nextNode, owned)
      && (forall s: Searcher, st | st in OwnedBy(owned, s) :: st in ptreeNode)
      && (tree.nodes == map[] ==> tree.root.tag == {})
    }

    constructor (initialState: State)
      ensures Valid() && ptreeNode.Keys == {initialState} && owned == map[] && registeredIds == 0
    {
      tree := Tree(Link(Some(0), {}), map[0 := Leaf(None, initialState)]);
      ptreeNode := map[initialState := 0];
      nextNode, registeredIds := 1, 0;
      rank, bound, owned := map[0 := 0], 1, map[];
    }

    /** A bit for another searcher; there are three. */
    method GetNextId() returns (id: Option<Searcher>)
      requires Valid()
      modifies this`registeredIds
      ensures Valid() && registeredIds == old(registeredIds) + 1
      ensures id == if old(registeredIds) < 3 then Some(old(registeredIds)) else None
    {
      id := Some(registeredIds);
      registeredIds := registeredIds + 1;
      if registeredIds > 3 {
        id := None;
      }
    }

    /** A searcher starts to track a state: set its bit upwards until it is set. */
    method AddState(s: Searcher, es: State)
      requires Valid() && es in ptreeNode
      modifies this`tree, this`owned
      ensures Valid() && owned == old(owned)[s := OwnedBy(old(owned), s) + {es}]
    {
      hide FormedAt, AllConsistent, ConsistentBut;
      ghost var owned' := OwnedBy(owned, s) + {es};
      assert AllConsistent(tree, s, OwnedBy(owned, s));
      OneOwnerChange(tree, ptreeNode, s, OwnedBy(owned, s), owned', es);
      tree := SetBits(tree, s, ptreeNode[es], rank, bound, ptreeNode, nextNode, owned, owned');
      ghost var before := owned;
      owned := owned[s := owned'];
      assert forall u: Searcher | u != s :: OwnedBy(owned, u) == OwnedBy(before, u);
      assert ptreeNode[es] in tree.nodes;
    }

    /** A searcher stops tracking a state: clear its bit upwards while nothing below needs it. */
    method RemoveState(s: Searcher, es: State)
      requires Valid() && es in OwnedBy(owned, s)
      modifies this`tree, this`owned
      ensures Valid() && owned == old(owned)[s := OwnedBy(old(owned), s) - {es}]
    {
      hide FormedAt, AllConsistent, ConsistentBut;
      ghost var owned' := OwnedBy(owned, s) - {es};
      assert AllConsistent(tree, s, OwnedBy(owned, s));
      OneOwnerChange(tree, ptreeNode, s, OwnedBy(owned, s), owned', es);
      BitAtLeaf(tree, s, OwnedBy(owned, s), ptreeNode[es]);
      tree := ClearBits(tree, s, ptreeNode[es], rank, bound, ptreeNode, nextNode, owned, owned');
      ghost var before := owned;
      owned := owned[s := owned'];
      assert forall u: Searcher | u != s :: OwnedBy(owned, u) == OwnedBy(before, u);
      assert ptreeNode[es] in tree.nodes;
    }

    /** State `es`, at a leaf, forks `ns`. */
    method Attach(ns: State, es: State)
      requires Valid() && es in ptreeNode && ns !in ptreeNode
      modifies this`tree, this`ptreeNode, this`nextNode, this`rank, this`bound
      ensures Valid() && ptreeNode.Keys == old(ptreeNode.Keys) + {ns}
    {
      hide Shaped, Tagged, Attached;
      LeafRank(tree, rank, bound, ptreeNode, nextNode, es);
      var n, l, r := ptreeNode[es], nextNode, nextNode + 1;
      var attached := Attached(tree, n, l, r, ns, es);
      ghost var rank' := rank[l := rank[n] + 1][r := rank[n] + 1];
      AttachedGood(tree, rank, bound, ptreeNode, nextNode, es, ns, owned, attached, rank', ptreeNode[ns := l][es := r]);
      tree := attached;
      ptreeNode := ptreeNode[ns := l][es := r];
      rank, bound := rank', bound + 1;
      nextNode := nextNode + 2;
    }

    /** Remove the leaf of a state that no searcher tracks, and the nodes above it that have no child left;
        then, if asked to, let an only child take the place of its parent. */
    method Remove(es: State, compress: bool)
      requires Valid() && es in ptreeNode && forall s: Searcher :: es !in OwnedBy(owned, s)
      modifies this`tree, this`ptreeNode
      ensures Valid() && ptreeNode.Keys == old(ptreeNode.Keys) - {es}
    {
      hide FormedAt, AllConsistent, Tagged, Named;
      assert tree.nodes[ptreeNode[es]].state == Some(es) by { LeafOf(tree, ptreeNode, es); }
      var n: Option<NodeId>;
      tree, n, ptreeNode := Prune(tree, ptreeNode[es], rank, bound, ptreeNode, nextNode, owned);
      if n.Some? && compress {
        CompressedShaped(tree, rank, bound, ptreeNode, nextNode, n.value);
        CompressedTagged(tree, rank, bound, n.value, owned);
        tree := Compressed(tree, n.value);
      }
    }

    /** A link carries the bit of a searcher exactly when a leaf below holds one of its states. */
    lemma TagsMean(n: NodeId, s: Searcher)
      requires Valid() && n in tree.nodes
      ensures s in LinkTo(tree, n).tag <==> exists path :: LeadsTo(tree, path, n, OwnedBy(owned, s))
    {
      hide FormedAt, Named;
      TagMeaning(tree, rank, bound, n, s, OwnedBy(owned, s));
    }

    /** The leaf of a state carries exactly the bits of the searchers that track it. */
    lemma LeafBits(es: State)
      requires Valid() && es in ptreeNode
      ensures ptreeNode[es] in tree.nodes && forall s: Searcher :: s in LinkTo(tree, ptreeNode[es]).tag <==> es in OwnedBy(owned, s)
    {
      hide FormedAt;
      forall s: Searcher ensures s in LinkTo(tree, ptreeNode[es]).tag <==> es in OwnedBy(owned, s) {
        assert AllConsistent(tree, s, OwnedBy(owned, s));
        assert Consistent(tree, ptreeNode[es], s, OwnedBy(owned, s));
      }
    }

    /** The states in the tree, and which searcher tracks which. */
    ghost function Account(): (l: Ledger)
      reads this
    {
      Ledger(ptreeNode.Keys, owned)
    }

    /** One step, if it is allowed: only a live state forks, is tracked or is removed, and only what is
        tracked is given up, before it is removed. */
    method Perform(step: TreeStep)
      requires Valid()
      modifies this
      ensures Valid() && Account() == StepOn(old(Account()), step)
    {
      hide Shaped, Tagged, LeadsTo;
      if step.es in ptreeNode {
        LeafBits(step.es);
        var tag := LinkTo(tree, ptreeNode[step.es]).tag;
        assert tag == {} <==> Untracked(owned, step.es) by { NoTag(tag, owned, step.es); }
        match step
        case AttachStep(es, ns) =>
          if ns !in ptreeNode {
            Attach(ns, es);
          }
        case TrackStep(es, s) =>
          AddState(s, es);
        case UntrackStep(es, s) =>
          if s in tag {
            RemoveState(s, es);
          }
        case RemoveStep(es, compress) =>
          if tag == {} {
            Remove(es, compress);
          }
      }
    }

    /** Any interleaving keeps every tag right, and the states and who tracks them are those of a plain ledger. */
    method Run(steps: seq<TreeStep>)
      requires Valid()
      modifies this
      ensures Valid() && Account() == RunOn(old(Account()), steps)
    {
      hide Valid, Account, StepOn;
      for i := 0 to |steps|
        invariant Valid() && Account() == RunOn(old(Account()), steps[..i])
      {
        Perform(steps[i]);
        assert steps[..i + 1][..i] == steps[..i];
      }
      assert steps[..|steps|] == steps;
    }
  }

  datatype TreeStep =
    | AttachStep(es: State, ns: State)
    | TrackStep(es: State, s: Searcher)
    | UntrackStep(es: State, s: Searcher)
    | RemoveStep(es: State, compress: bool)

  datatype Ledger = Ledger(states: set<State>, owned: Owners)

  predicate Untracked(owned: Owners, es: State) {
    forall s | s in owned :: es !in owned[s]
  }

  lemma NoTag(tag: set<Searcher>, owned: Owners, es: State)
    requires forall s: Searcher :: s in tag <==> es in OwnedBy(owned, s)
    ensures tag == {} <==> Untracked(owned, es)
  {
    if Untracked(owned, es) {
      assert forall s | s in tag :: es in OwnedBy(owned, s);
    } else {
      var s :| s in owned && es in owned[s];
      assert es in OwnedBy(owned, s);
    }
  }

  /** A step on the ledger. */
  function StepOn(l: Ledger, step: TreeStep): Ledger {
    if step.es !in l.states then l else
    match step
    case AttachStep(_, ns) => l.(states := l.states + {ns})
    case TrackStep(es, s) => l.(owned := l.owned[s := OwnedBy(l.owned, s) + {es}])
    case UntrackStep(es, s) => if es in OwnedBy(l.owned, s) then l.(owned := l.owned[s := OwnedBy(l.owned, s) - {es}]) else l
    case RemoveStep(es, _) => if Untracked(l.owned, es) then l.(states := l.states - {es}) else l
  }

  function RunOn(l: Ledger, steps: seq<TreeStep>): Ledger {
    if steps == [] then l else StepOn(RunOn(l, steps[..|steps| - 1]), steps[|steps| - 1])
  }

  class RandomPathSearcher {
    const processTree: PTree
    const id: Searcher

    constructor (processTree: PTree, id: Searcher)
      ensures this.processTree == processTree && this.id == id
    {
      this.processTree, this.id := processTree, id;
    }

    ghost function Tracked(): set<State>
      reads this, processTree
    {
      OwnedBy(processTree.owned, id)
    }

    /** Nothing is tracked exactly when the root does not carry the bit. */
    method Empty() returns (empty: bool)
      requires processTree.Valid()
      ensures empty <==> Tracked() == {}
    {
      hide FormedAt;
      var t := processTree.tree;
      empty := !IsOurs(t.root, id);
      RootBit(t, processTree.rank, processTree.bound, processTree.ptreeNode, processTree.nextNode, processTree.owned, id);
    }

    /** Go to a child with the bit. Both children are never without it. Between two with it a random bit decides,
        the next of the word drawn last or the highest of a new one. */
    method Descend(t: Tree, n: NodeId, rng: nat -> nat, flips: nat, bits: nat, draws: nat, ghost c: nat, ghost owned: set<State>)
      returns (child: NodeId, flips': nat, bits': nat, draws': nat)
      requires n in t.nodes && t.nodes[n].state.None? && (t.nodes[n].parent.Some? ==> t.nodes[n].parent.value in t.nodes)
      requires Consistent(t, n, id, owned) && id in LinkTo(t, n).tag && Drawn(rng, c, flips, bits, draws)
      ensures Takes(t.nodes[n], id, Flip(rng, c), child)
      ensures Drawn(rng, ChoicesAfter(t, id, n, c), flips', bits', draws')
    {
      hide BitSet, LinkTo;
      flips', bits', draws' := flips, bits, draws;
      if !IsOurs(t.nodes[n].left, id) {
        assert IsOurs(t.nodes[n].right, id);
        child := t.nodes[n].right.ptr.value;
      } else if !IsOurs(t.nodes[n].right, id) {
        assert IsOurs(t.nodes[n].left, id);
        child := t.nodes[n].left.ptr.value;
      } else {
        if bits' == 0 {
          flips' := rng(draws');
          bits', draws' := 32, draws' + 1;
        }
        bits' := bits' - 1;
        FlipAt(rng, c, draws', bits');
        child := (if BitSet(flips', bits') then t.nodes[n].left else t.nodes[n].right).ptr.value;
      }
    }

    /** There is a root, and its link carries the bit. */
    lemma AtRoot()
      requires processTree.Valid() && Tracked() != {}
      ensures var t, rank, bound := processTree.tree, processTree.rank, processTree.bound;
        && HasParents(t) && Formed(t, rank, bound) && AllConsistent(t, id, OwnedBy(processTree.owned, id)) && t.root.ptr.Some?
        && var n := t.root.ptr.value; n in t.nodes && n in rank && id in LinkTo(t, n).tag && rank[n] < bound
    {
      hide FormedAt;
      var t, rank, bound := processTree.tree, processTree.rank, processTree.bound;
      assert AllConsistent(t, id, OwnedBy(processTree.owned, id));
      RootBit(t, rank, bound, processTree.ptreeNode, processTree.nextNode, processTree.owned, id);
      RootNode(t, rank, bound, t.root.ptr.value);
    }

    /** Walk down from the root along the links with the bit, choosing by random bits between two of them. The
        walk ends at a tracked state. */
    method SelectState(rng: nat -> nat) returns (es: State, ghost path: seq<NodeId>)
      requires processTree.Valid() && Tracked() != {}
      ensures es in Tracked()
      ensures Walked(processTree.tree, id, rng, path)
      ensures path != [] && path[|path| - 1] in processTree.tree.nodes && processTree.tree.nodes[path[|path| - 1]].state == Some(es)
    {
      hide FormedAt, Walked, Choices, Flip, Drawn, Takes, Walking, ChoicesAfter, LinkTo;
      hide PTree.Valid;
      AtRoot();
      var t := processTree.tree;
      ghost var rank, bound, owned := processTree.rank, processTree.bound, OwnedBy(processTree.owned, id);
      var n := t.root.ptr.value;
      path := [n];
      var flips, bits, draws := 0, 0, 0;
      WalkStarts(t, id, rng, n);
      while t.nodes[n].state.None?
        invariant n in t.nodes && n in rank && id in LinkTo(t, n).tag && rank[n] < bound
        invariant Walking(t, id, rng, path, n, flips, bits, draws)
        decreases bound - rank[n]
      {
        assert Consistent(t, n, id, owned);
        WalkEnds(t, id, rng, path, n, flips, bits, draws);
        ghost var c := Choices(t, id, path);
        var child, flips', bits', draws' := Descend(t, n, rng, flips, bits, draws, c, owned);
        TakeDown(t, rank, bound, n, child, id, Flip(rng, c));
        WalkOn(t, id, rng, path, n, flips, bits, draws, child, flips', bits', draws');
        path, n, flips, bits, draws := path + [child], child, flips', bits', draws';
      }
      WalkEnds(t, id, rng, path, n, flips, bits, draws);
      assert Consistent(t, n, id, owned);
      es := t.nodes[n].state.value;
    }

    /** Track the added states and stop tracking the removed ones. */
    method Update(addedStates: seq<State>, removedStates: seq<State>)
      requires processTree.Valid()
      requires forall i | 0 <= i < |addedStates| :: addedStates[i] in processTree.ptreeNode
      requires forall i | 0 <= i < |removedStates| :: removedStates[i] in Tracked() || removedStates[i] in addedStates
      requires forall i, j | 0 <= i < j < |removedStates| :: removedStates[i] != removedStates[j]
      modifies processTree`tree, processTree`owned
      ensures processTree.Valid()
      ensures Tracked() == old(Tracked()) + (set es | es in addedStates) - (set es | es in removedStates)
      ensures forall s: Searcher | s != id :: OwnedBy(processTree.owned, s) == OwnedBy(old(processTree.owned), s)
    {
      hide PTree.Valid;
      for i := 0 to |addedStates|
        invariant processTree.Valid() && Tracked() == old(Tracked()) + (set es | es in addedStates[..i])
        invariant forall s: Searcher | s != id :: OwnedBy(processTree.owned, s) == OwnedBy(old(processTree.owned), s)
      {
        processTree.AddState(id, addedStates[i]);
        assert addedStates[..i + 1] == addedStates[..i] + [addedStates[i]];
      }
      assert addedStates[..|addedStates|] == addedStates;
      for i := 0 to |removedStates|
        invariant processTree.Valid() && Tracked() == old(Tracked()) + (set es | es in addedStates) - (set es | es in removedStates[..i])
        invariant forall s: Searcher | s != id :: OwnedBy(processTree.owned, s) == OwnedBy(old(processTree.owned), s)
      {
        processTree.RemoveState(id, removedStates[i]);
        assert removedStates[..i + 1] == removedStates[..i] + [removedStates[i]];
      }
      assert removedStates[..|removedStates|] == removedStates;
    }
  }

  // ---------------------------------------------------------------- the walk

  /** The random bit of choice `c`: each word drawn gives 32 of them, the highest first. */
  predicate Flip(rng: nat -> nat, c: nat) {
    BitSet(rng(c / 32), 31 - c % 32)
  }

  /** The walk goes from a node to a child with the bit, and where both have it to the left one exactly when the
      random bit says so. */
  predicate Takes(node: Node, s: Searcher, left: bool, n: NodeId) {
    && node.state.None?
    && ((IsOurs(node.left, s) && node.left.ptr == Some(n)) || (IsOurs(node.right, s) && node.right.ptr == Some(n)))
    && (IsOurs(node.left, s) && IsOurs(node.right, s) ==> (if left then node.left else node.right).ptr == Some(n))
  }

  /** How often a walk has chosen when it leaves `n`, before which it has chosen `c` times. */
  function ChoicesAfter(t: Tree, s: Searcher, n: NodeId, c: nat): nat {
    if n in t.nodes && IsOurs(t.nodes[n].left, s) && IsOurs(t.nodes[n].right, s) then c + 1 else c
  }

  /** How often a walk along the nodes has chosen. */
  function Choices(t: Tree, s: Searcher, path: seq<NodeId>): nat {
    if |path| < 2 then 0
    else ChoicesAfter(t, s, path[|path| - 2], Choices(t, s, path[..|path| - 1]))
  }

  /** A walk from the root. */
  predicate Walked(t: Tree, s: Searcher, rng: nat -> nat, path: seq<NodeId>) {
    if |path| < 2 then path != [] && t.root.ptr == Some(path[0])
    else
      && Walked(t, s, rng, path[..|path| - 1]) && path[|path| - 2] in t.nodes
      && Takes(t.nodes[path[|path| - 2]], s, Flip(rng, Choices(t, s, path[..|path| - 1])), path[|path| - 1])
  }

  /** After `c` choices, `bits` bits of the last word are left. */
  predicate Drawn(rng: nat -> nat, c: nat, flips: nat, bits: nat, draws: nat) {
    bits < 32 && c + bits == 32 * draws && (bits > 0 ==> draws > 0 && flips == rng(draws - 1))
  }

  /** The walk has come to `n`, with the random bits drawn for it. */
  predicate Walking(t: Tree, s: Searcher, rng: nat -> nat, path: seq<NodeId>, n: NodeId, flips: nat, bits: nat, draws: nat) {
    path != [] && path[|path| - 1] == n && Walked(t, s, rng, path) && Drawn(rng, Choices(t, s, path), flips, bits, draws)
  }

  lemma WalkStarts(t: Tree, s: Searcher, rng: nat -> nat, n: NodeId)
    requires t.root.ptr == Some(n)
    ensures Walking(t, s, rng, [n], n, 0, 0, 0)
  {
  }

  lemma WalkEnds(t: Tree, s: Searcher, rng: nat -> nat, path: seq<NodeId>, n: NodeId, flips: nat, bits: nat, draws: nat)
    requires Walking(t, s, rng, path, n, flips, bits, draws)
    ensures path != [] && path[|path| - 1] == n && Walked(t, s, rng, path) && Drawn(rng, Choices(t, s, path), flips, bits, draws)
  {
  }

  lemma WalkOn(t: Tree, s: Searcher, rng: nat -> nat, path: seq<NodeId>, n: NodeId, flips: nat, bits: nat, draws: nat, child: NodeId, flips': nat, bits': nat, draws': nat)
    requires Walking(t, s, rng, path, n, flips, bits, draws) && n in t.nodes
    requires Takes(t.nodes[n], s, Flip(rng, Choices(t, s, path)), child)
    requires Drawn(rng, ChoicesAfter(t, s, n, Choices(t, s, path)), flips', bits', draws')
    ensures Walking(t, s, rng, path + [child], child, flips', bits', draws')
  {
    hide Takes, Flip, ChoicesAfter;
    assert (path + [child])[..|path|] == path;
  }

  /** Bit `bits` of the last word drawn is that of choice `c`. */
  lemma FlipAt(rng: nat -> nat, c: nat, draws: nat, bits: nat)
    requires bits < 32 && draws > 0 && c + bits + 1 == 32 * draws
    ensures Flip(rng, c) <==> BitSet(rng(draws - 1), bits)
  {
    hide BitSet;
    assert c / 32 == draws - 1 && c % 32 == 31 - bits;
  }

  /** The root, and that its link points to it. */
  lemma RootNode(t: Tree, rank: map<NodeId, nat>, bound: nat, n: NodeId)
    requires Formed(t, rank, bound) && n in t.nodes && HasParents(t) && t.root.ptr == Some(n)
    ensures n in rank && rank[n] < bound && LinkTo(t, n) == t.root
  {
    assert FormedAt(t, rank, bound, n);
  }

  /** A child, its link and its rank. */
  lemma StepDown(t: Tree, rank: map<NodeId, nat>, bound: nat, p: NodeId, c: NodeId)
    requires Formed(t, rank, bound) && HasParents(t) && p in t.nodes && IsChild(t, p, c)
    ensures c in t.nodes && p in rank && c in rank && rank[p] < rank[c] < bound
    ensures t.nodes[p].left.ptr == Some(c) ==> LinkTo(t, c) == t.nodes[p].left
    ensures t.nodes[p].right.ptr == Some(c) ==> LinkTo(t, c) == t.nodes[p].right
  {
    assert FormedAt(t, rank, bound, p);
    assert FormedAt(t, rank, bound, c);
  }

  /** A child that the walk goes to. */
  lemma TakeDown(t: Tree, rank: map<NodeId, nat>, bound: nat, p: NodeId, c: NodeId, s: Searcher, left: bool)
    requires Formed(t, rank, bound) && HasParents(t) && p in t.nodes && Takes(t.nodes[p], s, left, c)
    ensures c in t.nodes && p in rank && c in rank && rank[p] < rank[c] < bound && s in LinkTo(t, c).tag
  {
    hide Formed, HasParents, LinkTo;
    StepDown(t, rank, bound, p, c);
  }

  /** Some path leads from the root to each node. */
  lemma {:induction false} FromRoot(t: Tree, rank: map<NodeId, nat>, bound: nat, n: NodeId) returns (path: seq<NodeId>)
    requires Formed(t, rank, bound) && n in t.nodes && n in rank
    ensures IsPath(t, path) && t.root.ptr == Some(path[0]) && path[|path| - 1] == n
    decreases rank[n]
  {
    ParentRank(t, rank, bound, n);
    assert FormedAt(t, rank, bound, n);
    if t.nodes[n].parent.None? {
      path := [n];
    } else {
      var above := FromRoot(t, rank, bound, t.nodes[n].parent.value);
      path := above + [n];
    }
  }

  /** The root carries the bit exactly when something is tracked. */
  lemma RootBit(t: Tree, rank: map<NodeId, nat>, bound: nat, ptreeNode: map<State, NodeId>, nextNode: NodeId, owned: Owners, s: Searcher)
    requires Shaped(t, rank, bound, ptreeNode, nextNode, None) && HasParents(t) && Tagged(t, owned)
    requires forall st | st in OwnedBy(owned, s) :: st in ptreeNode
    requires t.nodes == map[] ==> t.root.tag == {}
    ensures IsOurs(t.root, s) <==> OwnedBy(owned, s) != {}
    ensures IsOurs(t.root, s) ==> t.root.ptr.value in t.nodes
  {
    hide FormedAt;
    assert AllConsistent(t, s, OwnedBy(owned, s));
    if st :| st in OwnedBy(owned, s) {
      LeafOf(t, ptreeNode, st);
      ParentRank(t, rank, bound, ptreeNode[st]);
      var path := FromRoot(t, rank, bound, ptreeNode[st]);
      LeadsBit(t, rank, bound, path[0], s, OwnedBy(owned, s), path);
      RootNode(t, rank, bound, path[0]);
    }
    if IsOurs(t.root, s) {
      var n :| n in t.nodes;
      ParentRank(t, rank, bound, n);
      var path := FromRoot(t, rank, bound, n);
      RootNode(t, rank, bound, path[0]);
      var down := BitLeads(t, rank, bound, path[0], s, OwnedBy(owned, s));
    }
  }
}
