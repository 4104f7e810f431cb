/** The executor's path management: forking, branching, switching, merging and terminating states. The
paths, live and finished, partition the inputs.
*/
module Paths {
  import opened Expressions
  import opened Constraints
  import opened Solvers

  type StateId = nat

  /** The constraints of every path. */
  type PathMap = map<StateId, seq<Expr>>

  /** Path constraints are conditions with a solution. */
  ghost predicate Feasible(paths: PathMap) {
    forall id | id in paths :: Conditions(paths[id]) && Satisfiable(paths[id])
  }

  /** `a` follows path `id`. */
  ghost predicate Follows(paths: PathMap, id: StateId, a: Assignment)
    requires Feasible(paths)
  {
    id in paths && Sat(paths[id], a)
  }

  /** `a` follows exactly one path. */
  ghost predicate FollowsOne(paths: PathMap, a: Assignment)
    requires Feasible(paths)
  {
    && (exists id :: Follows(paths, id, a))
    && (forall i, j | Follows(paths, i, a) && Follows(paths, j, a) :: i == j)
  }

  /** Every input follows exactly one path. */
  ghost predicate Partition(paths: PathMap) {
    Feasible(paths) && forall a: Assignment :: FollowsOne(paths, a)
  }

  /** `a` satisfies exactly one of the conditions. */
  ghost predicate TakesOne(conditions: seq<Expr>, a: Assignment)
    requires Conditions(conditions)
  {
    && (exists i | 0 <= i < |conditions| :: Holds(conditions[i], a))
    && (forall i, j | 0 <= i < j < |conditions| :: !(Holds(conditions[i], a) && Holds(conditions[j], a)))
  }

  /** Each solution of `cs` satisfies exactly one condition, and each condition has one. */
  ghost predicate Splits(cs: seq<Expr>, conditions: seq<Expr>)
    requires Conditions(cs) && Conditions(conditions)
  {
    && (forall a: Assignment | Sat(cs, a) :: TakesOne(conditions, a))
    && (forall i | 0 <= i < |conditions| :: May(cs, conditions[i]))
  }

  /** Path `id` now has the solutions of `cs` in which `e` holds. */
  ghost predicate Narrowed(cs: seq<Expr>, e: Expr, narrowed: seq<Expr>)
    requires Conditions(cs) && OfWidth(e, BOOL)
  {
    Conditions(narrowed) && forall a: Assignment :: Sat(narrowed, a) <==> Sat(cs, a) && Holds(e, a)
  }

  /** `after` is `before` with path `ids[0]` split into the paths `ids`, one per condition. */
  ghost predicate SplitInto(before: PathMap, after: PathMap, ids: seq<StateId>, conditions: seq<Expr>)
    requires Feasible(before) && Conditions(conditions)
  {
    && |ids| == |conditions| > 0 && ids[0] in before
    && (forall i, j | 0 <= i < j < |ids| :: ids[i] != ids[j])
    && (forall i | 0 < i < |ids| :: ids[i] !in before)
    && (forall id :: id in after <==> id in before || id in ids)
    && (forall id | id in before && id !in ids :: after[id] == before[id])
    && (forall i | 0 <= i < |ids| :: ids[i] in after && Narrowed(before[ids[0]], conditions[i], after[ids[i]]))
  }

  lemma FeasibleSplit(before: PathMap, after: PathMap, ids: seq<StateId>, conditions: seq<Expr>)
    requires Feasible(before) && Conditions(conditions) && SplitInto(before, after, ids, conditions)
    requires Splits(before[ids[0]], conditions)
    ensures Feasible(after)
  {
    hide Eval, Sat, Holds, WF, Width, TakesOne;
    forall id | id in after ensures Conditions(after[id]) && Satisfiable(after[id]) {
      if id in ids {
        var i :| 0 <= i < |ids| && ids[i] == id;
        assert Narrowed(before[ids[0]], conditions[i], after[ids[i]]);
        assert May(before[ids[0]], conditions[i]);
      }
    }
  }

  /** The path that `a` followed before the split. */
  lemma Origin(before: PathMap, after: PathMap, ids: seq<StateId>, conditions: seq<Expr>, x: StateId, a: Assignment) returns (i: nat)
    requires Feasible(before) && Feasible(after) && Conditions(conditions) && SplitInto(before, after, ids, conditions)
    requires Follows(after, x, a)
    ensures x in ids ==> i < |ids| && ids[i] == x && Follows(before, ids[0], a) && Holds(conditions[i], a)
    ensures x !in ids ==> Follows(before, x, a)
  {
    hide Eval, Sat, Holds, WF, Width;
    i := 0;
    if x in ids {
      i :| 0 <= i < |ids| && ids[i] == x;
      assert Narrowed(before[ids[0]], conditions[i], after[ids[i]]);
    }
  }

  lemma SplitOne(before: PathMap, after: PathMap, ids: seq<StateId>, conditions: seq<Expr>, a: Assignment)
    requires Feasible(before) && Feasible(after) && Conditions(conditions) && SplitInto(before, after, ids, conditions)
    requires FollowsOne(before, a) && (Sat(before[ids[0]], a) ==> TakesOne(conditions, a))
    ensures FollowsOne(after, a)
  {
    hide Eval, Sat, Holds, WF, Width, Narrowed;
    var id :| Follows(before, id, a);
    if id == ids[0] {
      var i :| 0 <= i < |conditions| && Holds(conditions[i], a);
      assert Narrowed(before[ids[0]], conditions[i], after[ids[i]]);
      assert Follows(after, ids[i], a) by { NarrowedHolds(before[ids[0]], conditions[i], after[ids[i]], a); }
    } else {
      assert id !in ids;
      assert Follows(after, id, a);
    }
    forall x, y | Follows(after, x, a) && Follows(after, y, a) ensures x == y {
      var i := Origin(before, after, ids, conditions, x, a);
      var j := Origin(before, after, ids, conditions, y, a);
    }
  }

  lemma NarrowedHolds(cs: seq<Expr>, e: Expr, narrowed: seq<Expr>, a: Assignment)
    requires Conditions(cs) && OfWidth(e, BOOL) && Narrowed(cs, e, narrowed)
    ensures Sat(narrowed, a) <==> Sat(cs, a) && Holds(e, a)
  {
  }

  /** Splitting a path keeps the partition. */
  lemma PartitionSplit(before: PathMap, after: PathMap, ids: seq<StateId>, conditions: seq<Expr>)
    requires Partition(before) && Conditions(conditions) && SplitInto(before, after, ids, conditions)
    requires Splits(before[ids[0]], conditions)
    ensures Partition(after)
  {
    hide Eval, Sat, Holds, WF, Width, TakesOne, SplitInto, FollowsOne;
    FeasibleSplit(before, after, ids, conditions);
    forall a: Assignment ensures FollowsOne(after, a) {
      SplitOne(before, after, ids, conditions, a);
    }
  }

  lemma MergeOne(before: PathMap, x: StateId, y: StateId, merged: seq<Expr>, after: PathMap, a: Assignment)
    requires Feasible(before) && Feasible(after) && x in before && y in before && x != y && Conditions(merged)
    requires after == (before - {y})[x := merged] && (Sat(merged, a) <==> Sat(before[x], a) || Sat(before[y], a))
    requires FollowsOne(before, a)
    ensures FollowsOne(after, a)
  {
    hide Eval, Sat, Holds, WF, Width;
    var id :| Follows(before, id, a);
    assert Follows(after, if id == y then x else id, a);
    assert Follows(before, x, a) ==> id == x;
    assert Follows(before, y, a) ==> id == y;
    forall i, j | Follows(after, i, a) && Follows(after, j, a) ensures i == j {
      assert Follows(before, if i == x && id == y then y else i, a);
      assert Follows(before, if j == x && id == y then y else j, a);
    }
  }

  /** Merging two paths into one keeps the partition. */
  lemma PartitionMerge(before: PathMap, x: StateId, y: StateId, merged: seq<Expr>)
    requires Partition(before) && x in before && y in before && x != y && Conditions(merged)
    requires forall a: Assignment :: Sat(merged, a) <==> Sat(before[x], a) || Sat(before[y], a)
    ensures Partition((before - {y})[x := merged])
  {
    hide Eval, Sat, Holds, WF, Width, FollowsOne;
    var after := (before - {y})[x := merged];
    assert Satisfiable(merged) by {
      var a: Assignment :| Sat(before[x], a);
      assert Sat(merged, a);
    }
    forall a: Assignment ensures FollowsOne(after, a) {
      MergeOne(before, x, y, merged, after, a);
    }
  }

  lemma UnconstrainedPartition(id: StateId)
    ensures Partition(map[id := []])
  {
    hide FollowsOne;
    var paths: PathMap := map[id := []];
    assert Sat([], map[]);
    forall a: Assignment ensures FollowsOne(paths, a) {
      UnconstrainedOne(id, a);
    }
  }

  lemma UnconstrainedOne(id: StateId, a: Assignment)
    requires Feasible(map[id := []])
    ensures FollowsOne(map[id := []], a)
  {
    assert Follows(map[id := []], id, a);
  }
}
