/** The process tree and the random-path searchers that tag it. The nodes live in a table, and pointers
are keys of the table; a tag is the set of searchers whose bit is set.
*/
module ProcessTrees {
  import opened Basics

  type NodeId = nat
  type State = nat
  type Searcher = nat

  /** A pointer to a node with its tag. */
  datatype Link = Link(ptr: Option<NodeId>, tag: set<Searcher>)

  const NullLink := Link(None, {})

  datatype Node = Node(parent: Option<NodeId>, left: Link, right: Link, state: Option<State>)

  datatype Tree = Tree(root: Link, nodes: map<NodeId, Node>)

  predicate IsChild(t: Tree, p: NodeId, c: NodeId) {
    p in t.nodes && (t.nodes[p].left.ptr == Some(c) || t.nodes[p].right.ptr == Some(c))
  }

  /** Node `n` and its pointers: ranks grow downwards, parent and child pointers agree, and null pointers
      have no tag. */
  ghost predicate FormedAt(t: Tree, rank: map<NodeId, nat>, bound: nat, n: NodeId)
    requires n in t.nodes
  {
    && n in rank && rank[n] < bound
    && LinkOk(t, rank, n, t.nodes[n].left) && LinkOk(t, rank, n, t.nodes[n].right)
    && (t.nodes[n].left.ptr.Some? ==> t.nodes[n].left.ptr != t.nodes[n].right.ptr)
    && (t.nodes[n].parent.Some? ==> IsChild(t, t.nodes[n].parent.value, n))
    && (t.nodes[n].parent.None? <==> t.root.ptr == Some(n))
  }

  ghost predicate LinkOk(t: Tree, rank: map<NodeId, nat>, n: NodeId, l: Link) {
    if l.ptr.None? then l.tag == {}
    else
      && l.ptr.value in t.nodes && t.nodes[l.ptr.value].parent == Some(n)
      && n in rank && l.ptr.value in rank && rank[n] < rank[l.ptr.value]
  }

  ghost predicate Formed(t: Tree, rank: map<NodeId, nat>, bound: nat) {
    forall n | n in t.nodes :: FormedAt(t, rank, bound, n)
  }

  predicate Childless(node: Node) {
    node.left.ptr.None? && node.right.ptr.None?
  }

  /** Exactly the leaves carry states. */
  predicate Leafy(t: Tree, n: NodeId)
    requires n in t.nodes
  {
    t.nodes[n].state.Some? <==> Childless(t.nodes[n])
  }

  /** The link that points to `n`. */
  function LinkTo(t: Tree, n: NodeId): Link
    requires n in t.nodes && (t.nodes[n].parent.Some? ==> t.nodes[n].parent.value in t.nodes)
  {
    if t.nodes[n].parent.None? then t.root
    else
      var p := t.nodes[t.nodes[n].parent.value];
      if p.left.ptr == Some(n) then p.left else p.right
  }

  /** The pointer is not null and carries the searcher's bit. */
  predicate IsOurs(l: Link, s: Searcher) {
    l.ptr.Some? && s in l.tag
  }

  /** Whether the link to `n` should carry the bit of `s`, which owns the states `owned`. */
  predicate Wants(node: Node, s: Searcher, owned: set<State>) {
    if node.state.Some? then node.state.value in owned else IsOurs(node.left, s) || IsOurs(node.right, s)
  }

  ghost predicate Consistent(t: Tree, n: NodeId, s: Searcher, owned: set<State>)
    requires n in t.nodes && (t.nodes[n].parent.Some? ==> t.nodes[n].parent.value in t.nodes)
  {
    s in LinkTo(t, n).tag <==> Wants(t.nodes[n], s, owned)
  }

  // ---------------------------------------------------------------- what the tags mean

  /** A path downwards. */
  predicate IsPath(t: Tree, path: seq<NodeId>) {
    path != [] && path[0] in t.nodes && forall i | 0 < i < |path| :: IsChild(t, path[i - 1], path[i])
  }

  /** The path leads from `n` to a leaf whose state is in `owned`. */
  ghost predicate LeadsTo(t: Tree, path: seq<NodeId>, n: NodeId, owned: set<State>) {
    && IsPath(t, path) && path[0] == n && path[|path| - 1] in t.nodes
    && t.nodes[path[|path| - 1]].state.Some? && t.nodes[path[|path| - 1]].state.value in owned
  }

  predicate HasParents(t: Tree) {
    forall n | n in t.nodes && t.nodes[n].parent.Some? :: t.nodes[n].parent.value in t.nodes
  }

  /** Every node is consistent for `s`. */
  ghost predicate AllConsistent(t: Tree, s: Searcher, owned: set<State>)
    requires HasParents(t)
  {
    forall n | n in t.nodes :: Consistent(t, n, s, owned)
  }

  /** A link with the bit leads to an owned leaf. */
  lemma {:induction false} BitLeads(t: Tree, rank: map<NodeId, nat>, bound: nat, n: NodeId, s: Searcher, owned: set<State>) returns (path: seq<NodeId>)
    requires Formed(t, rank, bound) && AllConsistent(t, s, owned) && n in t.nodes && s in LinkTo(t, n).tag
    ensures LeadsTo(t, path, n, owned)
    decreases bound - rank[n]
  {
    assert Consistent(t, n, s, owned);
    var node := t.nodes[n];
    if node.state.Some? {
      path := [n];
    } else {
      var c := if IsOurs(node.left, s) then node.left.ptr.value else node.right.ptr.value;
      var rest := BitLeads(t, rank, bound, c, s, owned);
      path := [n] + rest;
    }
  }

  /** A link above an owned leaf has the bit. */
  lemma {:induction false} LeadsBit(t: Tree, rank: map<NodeId, nat>, bound: nat, n: NodeId, s: Searcher, owned: set<State>, path: seq<NodeId>)
    requires Formed(t, rank, bound) && AllConsistent(t, s, owned) && LeadsTo(t, path, n, owned)
    requires forall m | m in t.nodes :: Leafy(t, m)
    ensures s in LinkTo(t, n).tag
    decreases |path|
  {
    assert Consistent(t, n, s, owned);
    if |path| > 1 {
      assert IsChild(t, path[0], path[1]);
      assert LeadsTo(t, path[1..], path[1], owned) by {
        assert forall i | 0 < i < |path[1..]| :: path[1..][i - 1] == path[i] && path[1..][i] == path[i + 1];
      }
      LeadsBit(t, rank, bound, path[1], s, owned, path[1..]);
      assert Leafy(t, n);
    }
  }

  /** A link carries the bit of a searcher exactly when some leaf below is owned by it. */
  lemma TagMeaning(t: Tree, rank: map<NodeId, nat>, bound: nat, n: NodeId, s: Searcher, owned: set<State>)
    requires Formed(t, rank, bound) && AllConsistent(t, s, owned) && n in t.nodes
    requires forall m | m in t.nodes :: Leafy(t, m)
    ensures s in LinkTo(t, n).tag <==> exists path :: LeadsTo(t, path, n, owned)
  {
    if s in LinkTo(t, n).tag {
      var path := BitLeads(t, rank, bound, n, s, owned);
    }
    if path :| LeadsTo(t, path, n, owned) {
      LeadsBit(t, rank, bound, n, s, owned, path);
    }
  }

  // ---------------------------------------------------------------- changing one tag

  /** The tree with another tag on the link to `n`. */
  function WithTag(t: Tree, n: NodeId, tag: set<Searcher>): Tree
    requires n in t.nodes && (t.nodes[n].parent.Some? ==> t.nodes[n].parent.value in t.nodes)
  {
    if t.nodes[n].parent.None? then t.(root := t.root.(tag := tag))
    else
      var p := t.nodes[n].parent.value;
      var node := t.nodes[p];
      t.(nodes := t.nodes[p := if node.left.ptr == Some(n) then node.(left := node.left.(tag := tag)) else node.(right := node.right.(tag := tag))])
  }

  lemma WithTagLink(t: Tree, rank: map<NodeId, nat>, bound: nat, n: NodeId, tag: set<Searcher>, m: NodeId)
    requires Formed(t, rank, bound) && n in t.nodes && m in t.nodes
    ensures var t' := WithTag(t, n, tag);
      m in t'.nodes && (t.nodes[m].parent.Some? ==> t.nodes[m].parent.value in t'.nodes) &&
      t'.nodes[m].parent == t.nodes[m].parent && t'.nodes[m].state == t.nodes[m].state && Childless(t'.nodes[m]) == Childless(t.nodes[m]) &&
      LinkTo(t', m) == (if m == n then LinkTo(t, n).(tag := tag) else LinkTo(t, m)) &&
      (t.nodes[n].parent != Some(m) ==> t'.nodes[m] == t.nodes[m])
  {
  }

  lemma WithTagLinks(t: Tree, rank: map<NodeId, nat>, bound: nat, n: NodeId, tag: set<Searcher>)
    requires Formed(t, rank, bound) && n in t.nodes
    ensures WithTag(t, n, tag).nodes.Keys == t.nodes.Keys
    ensures forall m | m in t.nodes :: WithTag(t, n, tag).nodes[m].parent == t.nodes[m].parent && WithTag(t, n, tag).nodes[m].state == t.nodes[m].state
    ensures forall m | m in t.nodes :: Childless(WithTag(t, n, tag).nodes[m]) == Childless(t.nodes[m])
    ensures forall m | m in t.nodes :: LinkTo(WithTag(t, n, tag), m) == if m == n then LinkTo(t, n).(tag := tag) else LinkTo(t, m)
    ensures forall m | m in t.nodes && t.nodes[n].parent != Some(m) :: WithTag(t, n, tag).nodes[m] == t.nodes[m]
  {
    hide LinkTo, Childless;
    forall m {:trigger t.nodes[m]} | m in t.nodes
      ensures m in WithTag(t, n, tag).nodes && (t.nodes[m].parent.Some? ==> t.nodes[m].parent.value in WithTag(t, n, tag).nodes)
      ensures WithTag(t, n, tag).nodes[m].parent == t.nodes[m].parent && WithTag(t, n, tag).nodes[m].state == t.nodes[m].state
      ensures Childless(WithTag(t, n, tag).nodes[m]) == Childless(t.nodes[m])
      ensures LinkTo(WithTag(t, n, tag), m) == if m == n then LinkTo(t, n).(tag := tag) else LinkTo(t, m)
      ensures t.nodes[n].parent != Some(m) ==> WithTag(t, n, tag).nodes[m] == t.nodes[m]
    {
      WithTagLink(t, rank, bound, n, tag, m);
    }
  }

  lemma WithTagFormedAt(t: Tree, rank: map<NodeId, nat>, bound: nat, n: NodeId, tag: set<Searcher>, m: NodeId)
    requires n in t.nodes && m in t.nodes && FormedAt(t, rank, bound, n) && FormedAt(t, rank, bound, m)
    ensures m in WithTag(t, n, tag).nodes && FormedAt(WithTag(t, n, tag), rank, bound, m)
  {
  }

  lemma WithTagFormed(t: Tree, rank: map<NodeId, nat>, bound: nat, n: NodeId, tag: set<Searcher>)
    requires Formed(t, rank, bound) && n in t.nodes
    ensures Formed(WithTag(t, n, tag), rank, bound)
  {
    assert FormedAt(t, rank, bound, n);
    hide FormedAt;
    forall m | m in WithTag(t, n, tag).nodes ensures FormedAt(WithTag(t, n, tag), rank, bound, m) {
      assert FormedAt(t, rank, bound, n);
      WithTagFormedAt(t, rank, bound, n, tag, m);
    }
  }

  /** Every node but `hole` is consistent for `s`. */
  ghost predicate ConsistentBut(t: Tree, s: Searcher, owned: set<State>, hole: Option<NodeId>)
    requires HasParents(t)
  {
    forall n | n in t.nodes && hole != Some(n) :: Consistent(t, n, s, owned)
  }

  /** A change of one tag does not concern a searcher whose bit stays. */
  lemma OtherSearcher(t: Tree, rank: map<NodeId, nat>, bound: nat, n: NodeId, tag: set<Searcher>, u: Searcher, owned: set<State>)
    requires Formed(t, rank, bound) && n in t.nodes && (u in tag <==> u in LinkTo(t, n).tag) && AllConsistent(t, u, owned)
    ensures Formed(WithTag(t, n, tag), rank, bound) && AllConsistent(WithTag(t, n, tag), u, owned)
  {
    WithTagFormed(t, rank, bound, n, tag);
    WithTagLinks(t, rank, bound, n, tag);
    var t' := WithTag(t, n, tag);
    forall m | m in t.nodes ensures Consistent(t', m, u, owned) {
      assert Consistent(t, m, u, owned);
      if t.nodes[n].parent == Some(m) {
        assert IsChild(t, m, n);
      }
    }
  }

  /** Setting the bit at the one node that lacks it moves the hole upwards. */
  lemma SetBit(t: Tree, rank: map<NodeId, nat>, bound: nat, n: NodeId, s: Searcher, owned: set<State>)
    requires Formed(t, rank, bound) && (forall m | m in t.nodes :: Leafy(t, m)) && n in t.nodes
    requires ConsistentBut(t, s, owned, Some(n)) && Wants(t.nodes[n], s, owned)
    ensures var t' := WithTag(t, n, LinkTo(t, n).tag + {s});
      Formed(t', rank, bound) && ConsistentBut(t', s, owned, t.nodes[n].parent) &&
      (t.nodes[n].parent.Some? ==> t.nodes[n].parent.value in t'.nodes && Wants(t'.nodes[t.nodes[n].parent.value], s, owned))
  {
    var tag := LinkTo(t, n).tag + {s};
    WithTagFormed(t, rank, bound, n, tag);
    WithTagLinks(t, rank, bound, n, tag);
    var t' := WithTag(t, n, tag);
    forall m | m in t.nodes && t.nodes[n].parent != Some(m) ensures Consistent(t', m, s, owned) {
      if m != n {
        assert Consistent(t, m, s, owned);
      }
    }
    if t.nodes[n].parent.Some? {
      assert IsChild(t, t.nodes[n].parent.value, n) && Leafy(t, t.nodes[n].parent.value);
    }
  }

  /** Clearing the bit at the one node that has it in vain moves the hole upwards. */
  lemma ClearBit(t: Tree, rank: map<NodeId, nat>, bound: nat, n: NodeId, s: Searcher, owned: set<State>)
    requires Formed(t, rank, bound) && (forall m | m in t.nodes :: Leafy(t, m)) && n in t.nodes
    requires ConsistentBut(t, s, owned, Some(n)) && !Wants(t.nodes[n], s, owned) && s in LinkTo(t, n).tag
    ensures var t' := WithTag(t, n, LinkTo(t, n).tag - {s});
      Formed(t', rank, bound) && ConsistentBut(t', s, owned, t.nodes[n].parent) &&
      (t.nodes[n].parent.Some? ==> t.nodes[n].parent.value in t'.nodes && s in LinkTo(t', t.nodes[n].parent.value).tag)
  {
    var tag := LinkTo(t, n).tag - {s};
    WithTagFormed(t, rank, bound, n, tag);
    WithTagLinks(t, rank, bound, n, tag);
    var t' := WithTag(t, n, tag);
    forall m | m in t.nodes && t.nodes[n].parent != Some(m) ensures Consistent(t', m, s, owned) {
      if m != n {
        assert Consistent(t, m, s, owned);
      }
    }
    if t.nodes[n].parent.Some? {
      var p := t.nodes[n].parent.value;
      assert IsChild(t, p, n) && Leafy(t, p) && Consistent(t, p, s, owned);
    }
  }

  // ---------------------------------------------------------------- growing and shrinking the tree

  function Leaf(parent: Option<NodeId>, state: State): Node {
    Node(parent, NullLink, NullLink, Some(state))
  }

  /** Node `n` gets two leaves: `l` for the new state, and `r`, which inherits the tag, for the state it had. */
  function Attached(t: Tree, n: NodeId, l: NodeId, r: NodeId, leftState: State, rightState: State): Tree
    requires n in t.nodes && (t.nodes[n].parent.Some? ==> t.nodes[n].parent.value in t.nodes)
  {
    var node := Node(t.nodes[n].parent, Link(Some(l), {}), Link(Some(r), LinkTo(t, n).tag), None);
    t.(nodes := t.nodes[n := node][l := Leaf(Some(n), leftState)][r := Leaf(Some(n), rightState)])
  }

  lemma AttachedFormedAt(t: Tree, rank: map<NodeId, nat>, bound: nat, n: NodeId, l: NodeId, r: NodeId, leftState: State, rightState: State, m: NodeId)
    requires n in t.nodes && FormedAt(t, rank, bound, n) && Childless(t.nodes[n]) && l !in t.nodes && r !in t.nodes && l != r
    requires t.root.ptr != Some(l) && t.root.ptr != Some(r)
    requires (m in t.nodes && FormedAt(t, rank, bound, m)) || m == l || m == r
    ensures m in Attached(t, n, l, r, leftState, rightState).nodes
    ensures FormedAt(Attached(t, n, l, r, leftState, rightState), rank[l := rank[n] + 1][r := rank[n] + 1], bound + 1, m)
  {
  }

  lemma AttachedFormed(t: Tree, rank: map<NodeId, nat>, bound: nat, n: NodeId, l: NodeId, r: NodeId, leftState: State, rightState: State)
    requires Formed(t, rank, bound) && n in t.nodes && Childless(t.nodes[n]) && l !in t.nodes && r !in t.nodes && l != r
    requires t.root.ptr != Some(l) && t.root.ptr != Some(r)
    ensures Formed(Attached(t, n, l, r, leftState, rightState), rank[l := rank[n] + 1][r := rank[n] + 1], bound + 1)
  {
    var t' := Attached(t, n, l, r, leftState, rightState);
    assert FormedAt(t, rank, bound, n);
    hide FormedAt;
    forall m | m in t'.nodes ensures FormedAt(t', rank[l := rank[n] + 1][r := rank[n] + 1], bound + 1, m) {
      AttachedFormedAt(t, rank, bound, n, l, r, leftState, rightState, m);
    }
  }

  lemma AttachedConsistent(t: Tree, rank: map<NodeId, nat>, bound: nat, n: NodeId, l: NodeId, r: NodeId, leftState: State, rightState: State, s: Searcher, owned: set<State>)
    requires Formed(t, rank, bound) && n in t.nodes && t.nodes[n].state == Some(rightState) && Childless(t.nodes[n])
    requires l !in t.nodes && r !in t.nodes && l != r && leftState !in owned && AllConsistent(t, s, owned)
    requires Formed(Attached(t, n, l, r, leftState, rightState), rank[l := rank[n] + 1][r := rank[n] + 1], bound + 1)
    ensures AllConsistent(Attached(t, n, l, r, leftState, rightState), s, owned)
  {
    var t' := Attached(t, n, l, r, leftState, rightState);
    forall m | m in t'.nodes ensures Consistent(t', m, s, owned) {
      assert Consistent(t, n, s, owned);
      if m != l && m != r {
        assert Consistent(t, m, s, owned);
        if t.nodes[m].parent.Some? {
          assert IsChild(t, t.nodes[m].parent.value, m);
        }
      }
    }
  }

  /** The tree without the childless node `n`. */
  function Unlinked(t: Tree, n: NodeId): Tree
    requires n in t.nodes
  {
    var nodes := if t.nodes[n].parent.Some? && t.nodes[n].parent.value in t.nodes then
                   (var p := t.nodes[n].parent.value;
                    var node := t.nodes[p];
                    t.nodes[p := if node.left.ptr == Some(n) then node.(left := NullLink) else node.(right := NullLink)])
                 else t.nodes;
    t.(nodes := nodes - {n})
  }

  lemma UnlinkedFormedAt(t: Tree, rank: map<NodeId, nat>, bound: nat, n: NodeId, m: NodeId)
    requires n in t.nodes && m in t.nodes && n != m && Childless(t.nodes[n])
    requires FormedAt(t, rank, bound, n) && FormedAt(t, rank, bound, m)
    ensures m in Unlinked(t, n).nodes && FormedAt(Unlinked(t, n), rank, bound, m)
  {
  }

  lemma UnlinkedNode(t: Tree, rank: map<NodeId, nat>, bound: nat, n: NodeId, m: NodeId)
    requires n in t.nodes && m in t.nodes && n != m && Childless(t.nodes[n]) && FormedAt(t, rank, bound, n)
    ensures Unlinked(t, n).nodes.Keys == t.nodes.Keys - {n} && Unlinked(t, n).nodes[m].state == t.nodes[m].state
    ensures t.nodes[n].parent != Some(m) ==> Unlinked(t, n).nodes[m] == t.nodes[m]
    ensures t.nodes[n].parent == Some(m) ==> Unlinked(t, n).nodes[m].left.ptr.None? || Unlinked(t, n).nodes[m].right.ptr.None?
  {
  }

  lemma UnlinkedFormed(t: Tree, rank: map<NodeId, nat>, bound: nat, n: NodeId)
    requires Formed(t, rank, bound) && n in t.nodes && Childless(t.nodes[n])
    ensures Formed(Unlinked(t, n), rank, bound)
    ensures Unlinked(t, n).nodes.Keys == t.nodes.Keys - {n} && Unlinked(t, n).root == t.root
    ensures forall m | m in t.nodes && m != n :: Unlinked(t, n).nodes[m].state == t.nodes[m].state
    ensures forall m | m in t.nodes && m != n && t.nodes[n].parent != Some(m) :: Unlinked(t, n).nodes[m] == t.nodes[m]
    ensures forall m | m in t.nodes && m != n && t.nodes[n].parent == Some(m) ::
      Unlinked(t, n).nodes[m].left.ptr.None? || Unlinked(t, n).nodes[m].right.ptr.None?
  {
    assert FormedAt(t, rank, bound, n);
    hide FormedAt;
    assert Unlinked(t, n).nodes.Keys == t.nodes.Keys - {n};
    hide Unlinked;
    forall m {:trigger t.nodes[m]} | m in t.nodes && m != n
      ensures FormedAt(Unlinked(t, n), rank, bound, m) && Unlinked(t, n).nodes[m].state == t.nodes[m].state
      ensures t.nodes[n].parent != Some(m) ==> Unlinked(t, n).nodes[m] == t.nodes[m]
      ensures t.nodes[n].parent == Some(m) ==> Unlinked(t, n).nodes[m].left.ptr.None? || Unlinked(t, n).nodes[m].right.ptr.None?
    {
      UnlinkedFormedAt(t, rank, bound, n, m);
      UnlinkedNode(t, rank, bound, n, m);
    }
  }

  /** The link to a node that stays, and whether it wants the bit, do not change. */
  lemma UnlinkedConsistentAt(t: Tree, rank: map<NodeId, nat>, bound: nat, n: NodeId, m: NodeId, s: Searcher, owned: set<State>)
    requires n in t.nodes && m in t.nodes && n != m && Childless(t.nodes[n]) && FormedAt(t, rank, bound, n) && FormedAt(t, rank, bound, m)
    requires LinkTo(t, n).tag == {} && Consistent(t, m, s, owned)
    requires m in Unlinked(t, n).nodes && FormedAt(Unlinked(t, n), rank, bound, m)
    ensures Consistent(Unlinked(t, n), m, s, owned)
  {
    hide LinkOk;
  }

  /** A node without bits may go: no searcher misses it. */
  lemma UnlinkedConsistent(t: Tree, rank: map<NodeId, nat>, bound: nat, n: NodeId, s: Searcher, owned: set<State>)
    requires Formed(t, rank, bound) && n in t.nodes && Childless(t.nodes[n]) && LinkTo(t, n).tag == {}
    requires Formed(Unlinked(t, n), rank, bound) && AllConsistent(t, s, owned)
    ensures AllConsistent(Unlinked(t, n), s, owned)
  {
    assert FormedAt(t, rank, bound, n);
    UnlinkedFormed(t, rank, bound, n);
    hide FormedAt, Unlinked, LinkTo, Consistent;
    forall m | m in Unlinked(t, n).nodes ensures Consistent(Unlinked(t, n), m, s, owned) {
      assert Consistent(t, m, s, owned);
      UnlinkedConsistentAt(t, rank, bound, n, m, s, owned);
    }
  }

  /** The tree where the only child of `n` takes its place. */
  function Compressed(t: Tree, n: NodeId): Tree
    requires n in t.nodes && !Childless(t.nodes[n])
  {
    var node := t.nodes[n];
    var child := if node.left.ptr.Some? then node.left else node.right;
    var c := child.ptr.value;
    if c !in t.nodes then t else
    var nodes := t.nodes[c := t.nodes[c].(parent := node.parent)];
    if node.parent.None? || node.parent.value !in nodes then Tree(child, nodes - {n})
    else
      var p := node.parent.value;
      var above := nodes[p];
      t.(nodes := nodes[p := if above.left.ptr == Some(n) then above.(left := child) else above.(right := child)] - {n})
  }

  /** The node has one child. */
  predicate OneChild(node: Node) {
    node.left.ptr.Some? != node.right.ptr.Some?
  }

  function OnlyChild(node: Node): Link {
    if node.left.ptr.Some? then node.left else node.right
  }

  /** What becomes of node `m`, which holds `x`, when the child of `n` takes the place of `n`. */
  function Relinked(m: NodeId, x: Node, n: NodeId, node: Node): Node {
    var child := OnlyChild(node);
    if child.ptr == Some(m) then x.(parent := node.parent)
    else if node.parent == Some(m) then (if x.left.ptr == Some(n) then x.(left := child) else x.(right := child))
    else x
  }

  lemma CompressedNode(t: Tree, rank: map<NodeId, nat>, bound: nat, n: NodeId, m: NodeId)
    requires n in t.nodes && m in t.nodes && n != m && OneChild(t.nodes[n]) && FormedAt(t, rank, bound, n)
    requires t.nodes[n].parent != OnlyChild(t.nodes[n]).ptr
    ensures m in Compressed(t, n).nodes && Compressed(t, n).nodes[m] == Relinked(m, t.nodes[m], n, t.nodes[n])
    ensures Compressed(t, n).root == if t.nodes[n].parent.None? then OnlyChild(t.nodes[n]) else t.root
    ensures Compressed(t, n).nodes.Keys == t.nodes.Keys - {n}
  {
  }

  /** The child of a node is not its parent. */
  lemma ChildNotParent(t: Tree, rank: map<NodeId, nat>, bound: nat, n: NodeId)
    requires Formed(t, rank, bound) && n in t.nodes && OneChild(t.nodes[n])
    ensures t.nodes[n].parent != OnlyChild(t.nodes[n]).ptr
  {
    assert FormedAt(t, rank, bound, n);
    if t.nodes[n].parent.Some? {
      assert FormedAt(t, rank, bound, t.nodes[n].parent.value);
    }
  }

  /** The link `l` of node `m` after compression. */
  lemma CompressedLink(t: Tree, rank: map<NodeId, nat>, bound: nat, n: NodeId, m: NodeId, l: Link)
    requires n in t.nodes && m in t.nodes && n != m && OneChild(t.nodes[n]) && FormedAt(t, rank, bound, n)
    requires t.nodes[n].parent != OnlyChild(t.nodes[n]).ptr && LinkOk(t, rank, m, l)
    ensures LinkOk(Compressed(t, n), rank, m, if l.ptr == Some(n) then OnlyChild(t.nodes[n]) else l)
  {
    hide Compressed;
    if l.ptr == Some(n) {
      CompressedNode(t, rank, bound, n, OnlyChild(t.nodes[n]).ptr.value);
    } else if l.ptr.Some? {
      CompressedNode(t, rank, bound, n, l.ptr.value);
    }
  }

  lemma CompressedFormedAt(t: Tree, rank: map<NodeId, nat>, bound: nat, n: NodeId, m: NodeId)
    requires n in t.nodes && m in t.nodes && n != m && OneChild(t.nodes[n]) && FormedAt(t, rank, bound, n) && FormedAt(t, rank, bound, m)
    requires t.nodes[n].parent != OnlyChild(t.nodes[n]).ptr
    ensures m in Compressed(t, n).nodes && FormedAt(Compressed(t, n), rank, bound, m)
  {
    hide Compressed;
    CompressedNode(t, rank, bound, n, m);
    CompressedLink(t, rank, bound, n, m, t.nodes[m].left);
    CompressedLink(t, rank, bound, n, m, t.nodes[m].right);
    hide LinkOk;
    if t.nodes[m].parent.Some? && t.nodes[m].parent != Some(n) {
      CompressedNode(t, rank, bound, n, t.nodes[m].parent.value);
    }
    if t.nodes[n].parent.Some? {
      CompressedNode(t, rank, bound, n, t.nodes[n].parent.value);
    }
  }

  lemma CompressedLinkToAt(t: Tree, rank: map<NodeId, nat>, bound: nat, n: NodeId, m: NodeId)
    requires n in t.nodes && m in t.nodes && n != m && OneChild(t.nodes[n]) && FormedAt(t, rank, bound, n) && FormedAt(t, rank, bound, m)
    requires t.nodes[n].parent != OnlyChild(t.nodes[n]).ptr
    requires m in Compressed(t, n).nodes && FormedAt(Compressed(t, n), rank, bound, m)
    requires t.nodes[n].parent.Some? ==> FormedAt(t, rank, bound, t.nodes[n].parent.value)
    ensures LinkTo(Compressed(t, n), m) == LinkTo(t, m)
  {
    hide Compressed;
    CompressedNode(t, rank, bound, n, m);
    if t.nodes[n].parent.Some? {
      CompressedNode(t, rank, bound, n, t.nodes[n].parent.value);
    }
    if t.nodes[m].parent.Some? && t.nodes[m].parent != Some(n) {
      CompressedNode(t, rank, bound, n, t.nodes[m].parent.value);
    }
  }

  /** Compression keeps the tag above every node. */
  lemma CompressedLinkTo(t: Tree, rank: map<NodeId, nat>, bound: nat, n: NodeId, m: NodeId)
    requires Formed(t, rank, bound) && n in t.nodes && m in t.nodes && n != m && OneChild(t.nodes[n])
    requires Formed(Compressed(t, n), rank, bound)
    ensures m in Compressed(t, n).nodes && LinkTo(Compressed(t, n), m) == LinkTo(t, m)
    ensures Compressed(t, n).nodes[m] == Relinked(m, t.nodes[m], n, t.nodes[n])
  {
    ChildNotParent(t, rank, bound, n);
    assert FormedAt(t, rank, bound, n) && FormedAt(t, rank, bound, m);
    hide Compressed, Relinked, OnlyChild, OneChild, LinkTo;
    CompressedNode(t, rank, bound, n, m);
    CompressedLinkToAt(t, rank, bound, n, m);
  }

  lemma CompressedLeafy(t: Tree, rank: map<NodeId, nat>, bound: nat, n: NodeId, m: NodeId)
    requires n in t.nodes && m in t.nodes && n != m && OneChild(t.nodes[n]) && FormedAt(t, rank, bound, n)
    requires t.nodes[n].parent != OnlyChild(t.nodes[n]).ptr
    ensures m in Compressed(t, n).nodes && Compressed(t, n).nodes.Keys == t.nodes.Keys - {n}
    ensures Compressed(t, n).nodes[m].state == t.nodes[m].state && (Leafy(t, m) ==> Leafy(Compressed(t, n), m))
  {
    hide Compressed;
    CompressedNode(t, rank, bound, n, m);
  }

  lemma CompressedFormed(t: Tree, rank: map<NodeId, nat>, bound: nat, n: NodeId)
    requires Formed(t, rank, bound) && n in t.nodes && OneChild(t.nodes[n])
    ensures Formed(Compressed(t, n), rank, bound) && Compressed(t, n).nodes.Keys == t.nodes.Keys - {n}
    ensures forall m | m in t.nodes && m != n :: Compressed(t, n).nodes[m].state == t.nodes[m].state
    ensures forall m | m in t.nodes && m != n && Leafy(t, m) :: Leafy(Compressed(t, n), m)
  {
    ChildNotParent(t, rank, bound, n);
    assert FormedAt(t, rank, bound, n);
    var c := OnlyChild(t.nodes[n]).ptr.value;
    assert c in t.nodes && c != n;
    hide FormedAt, Compressed, Leafy, OneChild, OnlyChild;
    CompressedLeafy(t, rank, bound, n, c);
    forall m {:trigger t.nodes[m]} | m in t.nodes && m != n
      ensures FormedAt(Compressed(t, n), rank, bound, m)
      ensures Compressed(t, n).nodes[m].state == t.nodes[m].state && (Leafy(t, m) ==> Leafy(Compressed(t, n), m))
    {
      CompressedFormedAt(t, rank, bound, n, m);
      CompressedLeafy(t, rank, bound, n, m);
    }
  }

  lemma CompressedConsistent(t: Tree, rank: map<NodeId, nat>, bound: nat, n: NodeId, s: Searcher, owned: set<State>)
    requires Formed(t, rank, bound) && n in t.nodes && OneChild(t.nodes[n]) && t.nodes[n].state.None? && AllConsistent(t, s, owned)
    requires Formed(Compressed(t, n), rank, bound)
    ensures AllConsistent(Compressed(t, n), s, owned)
  {
    assert Consistent(t, n, s, owned) && FormedAt(t, rank, bound, n);
    var t' := Compressed(t, n);
    forall m | m in t'.nodes ensures Consistent(t', m, s, owned) {
      assert m in t.nodes && m != n by { MembersCompressed(t, rank, bound, n, m); }
      assert Consistent(t, m, s, owned);
      if t.nodes[n].parent == Some(m) {
        assert FormedAt(t, rank, bound, m);
      }
      hide Formed, Compressed, FormedAt;
      CompressedLinkTo(t, rank, bound, n, m);
      if t.nodes[n].parent == Some(m) {
        ParentWants(t, n, m, s, owned);
      }
    }
  }

  lemma MembersCompressed(t: Tree, rank: map<NodeId, nat>, bound: nat, n: NodeId, m: NodeId)
    requires Formed(t, rank, bound) && n in t.nodes && OneChild(t.nodes[n]) && m in Compressed(t, n).nodes
    ensures m in t.nodes && m != n
  {
    hide FormedAt, Compressed;
    CompressedFormed(t, rank, bound, n);
  }

  /** A parent wants the bit of its grandchild as it wanted that of its child. */
  lemma ParentWants(t: Tree, n: NodeId, p: NodeId, s: Searcher, owned: set<State>)
    requires n in t.nodes && t.nodes[n].parent == Some(p) && p in t.nodes && IsChild(t, p, n)
    requires t.nodes[p].left.ptr.Some? ==> t.nodes[p].left.ptr != t.nodes[p].right.ptr
    requires OneChild(t.nodes[n]) && t.nodes[n].state.None? && Consistent(t, n, s, owned) && OnlyChild(t.nodes[n]).ptr != Some(p)
    requires (t.nodes[n].left.ptr.None? ==> t.nodes[n].left.tag == {}) && (t.nodes[n].right.ptr.None? ==> t.nodes[n].right.tag == {})
    ensures Wants(Relinked(p, t.nodes[p], n, t.nodes[n]), s, owned) == Wants(t.nodes[p], s, owned)
  {
  }
}
