/** The executor: its states, and the steps that fork, switch, merge and terminate them. */
module Executors {
  import opened Expressions
  import opened SmartConstructors
  import opened Basics
  import opened Constraints
  import opened Solvers
  import opened SwitchConditions
  import opened ConstraintMerging
  import opened Paths

  /** A step of a run. `compatible` says whether two states agree in all that a merge compares before
      it looks at constraints; `picks` are the random numbers drawn by a branch. */
  datatype Step =
    | ForkStep(id: StateId, condition: Expr, timedOut: bool)
    | SwitchStep(id: StateId, cond: Expr, cases: seq<Case>, defaultDest: nat, picks: nat -> nat)
    | MergeStep(id: StateId, other: StateId, compatible: bool)
    | TerminateStep(id: StateId)
    | UpdateStep

  predicate WFStep(s: Step) {
    match s
    case ForkStep(_, condition, _) => OfWidth(condition, BOOL)
    case SwitchStep(_, cond, cases, _, _) => WF(cond) && WFCases(cases, Width(cond))
    case _ => true
  }

  // ---------------------------------------------------------------- what a step does

  /** The paths, the states still to be explored, and those the searcher knows of. */
  datatype Snapshot = Snapshot(paths: PathMap, live: set<StateId>, states: set<StateId>)

  /** One outcome of a fork: a state exists exactly when the condition is possible, and it then has the
      inputs that satisfy it. */
  ghost predicate Outcome(cs: seq<Expr>, condition: Expr, paths: PathMap, state: Option<StateId>)
    requires Conditions(cs) && OfWidth(condition, BOOL)
  {
    && (state.Some? <==> May(cs, condition))
    && (state.Some? ==> state.value in paths && Narrowed(cs, condition, paths[state.value]))
  }

  /** The state itself is one outcome, and any other is new. */
  ghost predicate Forked(b: Snapshot, id: StateId, condition: Expr, trueState: Option<StateId>, falseState: Option<StateId>, c: Snapshot)
    requires Feasible(b.paths) && OfWidth(condition, BOOL)
  {
    && id in b.paths
    && Outcome(b.paths[id], condition, c.paths, trueState) && Outcome(b.paths[id], IsZero(condition), c.paths, falseState)
    && trueState != falseState && (trueState == Some(id) || falseState == Some(id))
    && (forall x | (trueState == Some(x) || falseState == Some(x)) && x != id :: x !in b.paths)
    && (forall x :: x in c.live <==> x in b.live || trueState == Some(x) || falseState == Some(x))
    && (forall x :: x in c.paths <==> x in b.paths || trueState == Some(x) || falseState == Some(x))
    && (forall x | x in b.paths && x != id :: c.paths[x] == b.paths[x])
    && c.states == b.states
  }

  /** State `ids[i]` has the inputs that go to block `targets[i]`. */
  ghost predicate Switched(b: Snapshot, id: StateId, cond: Expr, cases: seq<Case>, defaultDest: nat, ids: seq<StateId>, targets: seq<nat>, c: Snapshot)
    requires Feasible(b.paths) && Feasible(c.paths) && WF(cond) && WFCases(cases, Width(cond))
  {
    && |ids| == |targets| && Distinct(ids) && Distinct(targets) && id in ids
    && (forall x | x in ids && x != id :: x !in b.paths)
    && c.live == b.live + (set x | x in ids)
    && (forall x :: x in c.paths <==> x in b.paths || x in ids)
    && (forall x | x in b.paths && x !in ids :: c.paths[x] == b.paths[x])
    && c.states == b.states
    && (forall i, a: Assignment | 0 <= i < |ids| ::
      Follows(c.paths, ids[i], a) <==> Follows(b.paths, id, a) && Destination(cases, defaultDest, Eval(cond, a)) == targets[i])
  }

  /** State `x` has the inputs of both, and `y` is gone. */
  ghost predicate Merged(b: Snapshot, x: StateId, y: StateId, c: Snapshot)
    requires Feasible(b.paths) && Feasible(c.paths)
  {
    && x in b.paths && y in b.paths && c.paths.Keys == b.paths.Keys - {y} && c.live == b.live - {y}
    && (forall id | id in c.paths && id != x :: c.paths[id] == b.paths[id])
    && c.states == b.states
    && (forall a: Assignment :: Follows(c.paths, x, a) <==> Follows(b.paths, x, a) || Follows(b.paths, y, a))
  }

  /** What a step does to the paths and the states. A step of a state that is not live does nothing. */
  ghost predicate Stepped(b: Snapshot, s: Step, c: Snapshot)
    requires Feasible(b.paths) && Feasible(c.paths) && WFStep(s)
  {
    match s
    case ForkStep(id, condition, timedOut) =>
      if id !in b.live then c == b
      else if timedOut then c == b.(live := b.live - {id})
      else exists trueState, falseState :: Forked(b, id, condition, trueState, falseState, c)
    case SwitchStep(id, cond, cases, defaultDest, _) =>
      if id !in b.live then c == b
      else exists ids, targets :: Switched(b, id, cond, cases, defaultDest, ids, targets, c)
    case MergeStep(id, other, compatible) =>
      if compatible && id != other && id in b.live && other in b.live then Merged(b, id, other, c) else c == b
    case TerminateStep(id) => c == b.(live := b.live - {id})
    case UpdateStep => c == b.(states := b.live)
  }

  /** Every input follows exactly one path at any time, and each step takes one snapshot to the next. */
  ghost predicate Replayed(trace: seq<Snapshot>, steps: seq<Step>) {
    && |trace| == |steps| + 1
    && (forall i | 0 <= i < |steps| :: WFStep(steps[i]))
    && (forall i | 0 <= i < |trace| :: Partition(trace[i].paths))
    && (forall i | 0 <= i < |steps| :: Stepped(trace[i], steps[i], trace[i + 1]))
  }

  lemma ReplayStarts(b: Snapshot)
    requires Partition(b.paths)
    ensures Replayed([b], [])
  {
  }

  lemma ReplayOn(trace: seq<Snapshot>, steps: seq<Step>, s: Step, c: Snapshot)
    requires Replayed(trace, steps) && WFStep(s) && Partition(c.paths) && Stepped(trace[|steps|], s, c)
    ensures Replayed(trace + [c], steps + [s])
  {
    hide WFStep, Stepped, Partition;
    forall i | 0 <= i < |steps| + 1
      ensures WFStep((steps + [s])[i])
    {
    }
  }

  /** Paths that were finished stay so, with the constraints they had. */
  ghost predicate FinishedKept(before: PathMap, live: set<StateId>, after: PathMap, live': set<StateId>) {
    forall id | id in before && id !in live :: id in after && after[id] == before[id] && id !in live'
  }

  /** A condition and its negation split what admits both. */
  lemma ForkSplits(cs: seq<Expr>, e: Expr)
    requires Conditions(cs) && OfWidth(e, BOOL) && May(cs, e) && May(cs, IsZero(e))
    ensures Conditions([e, IsZero(e)]) && Splits(cs, [e, IsZero(e)])
  {
    hide Eval, WF, Width, IsZero, Sat, Holds;
    Negations(e);
    var conditions := [e, IsZero(e)];
    assert OfWidth(conditions[0], BOOL) && OfWidth(conditions[1], BOOL);
    forall a: Assignment | Sat(cs, a) ensures TakesOne(conditions, a) {
      assert Holds(conditions[0], a) || Holds(conditions[1], a);
    }
  }

  lemma DispatchesOne(cs: seq<Expr>, cond: Expr, cases: seq<Case>, defaultDest: nat, conditions: seq<Expr>, targets: seq<nat>, a: Assignment)
    requires Conditions(cs) && WF(cond) && WFCases(cases, Width(cond)) && Sat(cs, a)
    requires Dispatches(cs, cond, cases, defaultDest, conditions, targets)
    ensures TakesOne(conditions, a) && |conditions| > 0
  {
    hide Eval, WF, Width, Sat, Holds, Destination, May;
    var i :| 0 <= i < |conditions| && Holds(conditions[i], a);
    forall i, j | 0 <= i < j < |conditions| ensures !(Holds(conditions[i], a) && Holds(conditions[j], a)) {
      assert Holds(conditions[i], a) ==> targets[i] == Destination(cases, defaultDest, Eval(cond, a));
      assert Holds(conditions[j], a) ==> targets[j] == Destination(cases, defaultDest, Eval(cond, a));
    }
  }

  lemma DispatchesMay(cs: seq<Expr>, cond: Expr, cases: seq<Case>, defaultDest: nat, conditions: seq<Expr>, targets: seq<nat>)
    requires Conditions(cs) && WF(cond) && WFCases(cases, Width(cond))
    requires Dispatches(cs, cond, cases, defaultDest, conditions, targets)
    ensures Conditions(conditions) && forall i | 0 <= i < |conditions| :: May(cs, conditions[i])
  {
    hide Eval, WF, Width, Sat, Holds;
  }

  /** The conditions of a switch split the state. */
  lemma SwitchSplits(cs: seq<Expr>, cond: Expr, cases: seq<Case>, defaultDest: nat, conditions: seq<Expr>, targets: seq<nat>)
    requires Conditions(cs) && Satisfiable(cs) && WF(cond) && WFCases(cases, Width(cond))
    requires Dispatches(cs, cond, cases, defaultDest, conditions, targets)
    ensures Conditions(conditions) && Splits(cs, conditions) && |conditions| > 0
  {
    hide Eval, WF, Width, Sat, Holds, TakesOne, Dispatches;
    DispatchesMay(cs, cond, cases, defaultDest, conditions, targets);
    forall a: Assignment | Sat(cs, a) ensures TakesOne(conditions, a) && |conditions| > 0 {
      DispatchesOne(cs, cond, cases, defaultDest, conditions, targets, a);
    }
  }

  /** In a switch, a solution satisfies the condition of a block exactly when the switch sends it there. */
  lemma DispatchExact(cs: seq<Expr>, cond: Expr, cases: seq<Case>, defaultDest: nat, conditions: seq<Expr>, targets: seq<nat>, i: nat, a: Assignment)
    requires Conditions(cs) && WF(cond) && WFCases(cases, Width(cond))
    requires Dispatches(cs, cond, cases, defaultDest, conditions, targets)
    requires i < |conditions| && Sat(cs, a)
    ensures Holds(conditions[i], a) <==> Destination(cases, defaultDest, Eval(cond, a)) == targets[i]
  {
    hide Eval, WF, Width, Sat, Holds, Destination, May;
    var j :| 0 <= j < |conditions| && Holds(conditions[j], a);
    assert targets[j] == Destination(cases, defaultDest, Eval(cond, a));
  }

  /** `paths` where each of `ids` has its new constraints. */
  ghost function Updated(paths: PathMap, constraints: PathMap, ids: seq<StateId>): PathMap
    requires forall id | id in ids :: id in constraints
  {
    map x | x in paths.Keys + (set y | y in ids) :: if x in ids then constraints[x] else paths[x]
  }

  /** The states `ids`, of which all but the first are new, make a split. */
  lemma UpdatedSplit(paths: PathMap, constraints: PathMap, ids: seq<StateId>, conditions: seq<Expr>)
    requires Partition(paths) && Conditions(conditions) && |ids| == |conditions| > 0 && Distinct(ids)
    requires ids[0] in paths && (forall i | 0 < i < |ids| :: ids[i] !in paths)
    requires forall id | id in ids :: id in constraints
    requires forall i | 0 <= i < |ids| :: Narrowed(paths[ids[0]], conditions[i], constraints[ids[i]])
    requires Splits(paths[ids[0]], conditions)
    ensures SplitInto(paths, Updated(paths, constraints, ids), ids, conditions)
    ensures Partition(Updated(paths, constraints, ids))
  {
    hide Eval, WF, Width, Sat, Holds, Narrowed, TakesOne, FollowsOne, May;
    var after := Updated(paths, constraints, ids);
    forall id ensures id in after <==> id in paths || id in ids {
    }
    PartitionSplit(paths, after, ids, conditions);
  }

  function Remaining(states: set<StateId>, added: seq<StateId>, removed: seq<StateId>): set<StateId> {
    (states + (set id | id in added)) - (set id | id in removed)
  }

  /** The lists of states agree with each other. */
  ghost predicate Registered(states: set<StateId>, added: seq<StateId>, removed: seq<StateId>, constraints: PathMap, nextId: StateId) {
    && Distinct(added) && Distinct(removed)
    && (forall id | id in added :: id !in states)
    && (forall id | id in removed :: id in states)
    && (forall id :: id in constraints <==> id in states || id in added)
    && (forall id | id in constraints :: id < nextId)
  }

  /** The live states have the constraints of their paths. */
  ghost predicate Current(live: set<StateId>, constraints: PathMap, nextId: StateId, paths: PathMap) {
    && (forall id | id in live :: id in constraints && id in paths && paths[id] == constraints[id])
    && (forall id | id in paths :: id < nextId)
  }

  /** Copies of a live state join the added states. */
  lemma ListsBranch(states: set<StateId>, added: seq<StateId>, removed: seq<StateId>, constraints: PathMap, nextId: StateId, paths: PathMap, ids: seq<StateId>, after: PathMap)
    requires Registered(states, added, removed, constraints, nextId) && Current(Remaining(states, added, removed), constraints, nextId, paths)
    requires |ids| > 0 && ids[0] in Remaining(states, added, removed)
    requires forall k | 0 < k < |ids| :: ids[k] == nextId + k - 1
    requires forall x :: x in after <==> x in constraints || x in ids
    requires forall x | x in constraints && x !in ids :: after[x] == constraints[x]
    ensures Distinct(ids)
    ensures Registered(states, added + ids[1..], removed, after, nextId + |ids| - 1)
    ensures Current(Remaining(states, added + ids[1..], removed), after, nextId + |ids| - 1, Updated(paths, after, ids))
    ensures Remaining(states, added + ids[1..], removed) == Remaining(states, added, removed) + (set x | x in ids)
  {
    hide Updated;
    assert ids == [ids[0]] + ids[1..];
    var copies := ids[1..];
    assert forall k | 0 <= k < |copies| :: copies[k] == nextId + k;
    RegisteredBranch(states, added, removed, constraints, nextId, copies, after);
    CurrentBranch(Remaining(states, added, removed), constraints, nextId, paths, ids, after);
  }

  lemma RegisteredBranch(states: set<StateId>, added: seq<StateId>, removed: seq<StateId>, constraints: PathMap, nextId: StateId, copies: seq<StateId>, after: PathMap)
    requires Registered(states, added, removed, constraints, nextId)
    requires forall k | 0 <= k < |copies| :: copies[k] == nextId + k
    requires forall x :: x in after <==> x in constraints || x in copies
    ensures Registered(states, added + copies, removed, after, nextId + |copies|)
    ensures Remaining(states, added + copies, removed) == Remaining(states, added, removed) + (set x | x in copies)
  {
    forall x | x in copies ensures nextId <= x < nextId + |copies| {
    }
    assert forall x | x in added || x in states || x in removed :: x in constraints && x !in copies;
    assert forall i | 0 <= i < |added| :: added[i] in added;
    assert Distinct(added + copies);
  }

  lemma CurrentBranch(live: set<StateId>, constraints: PathMap, nextId: StateId, paths: PathMap, ids: seq<StateId>, after: PathMap)
    requires Current(live, constraints, nextId, paths) && |ids| > 0
    requires forall x | x in ids :: x < nextId + |ids| - 1 || x in live
    requires forall x | x in live :: x < nextId
    requires forall x | x in constraints || x in ids :: x in after
    requires forall x | x in constraints && x !in ids :: after[x] == constraints[x]
    ensures Current(live + (set x | x in ids), after, nextId + |ids| - 1, Updated(paths, after, ids))
  {
  }

  /** A split by the conditions of a switch gives each state the inputs that go to its block. */
  lemma SwitchPaths(before: PathMap, after: PathMap, ids: seq<StateId>, cond: Expr, cases: seq<Case>, defaultDest: nat, conditions: seq<Expr>, targets: seq<nat>)
    requires Feasible(before) && Feasible(after) && WF(cond) && WFCases(cases, Width(cond)) && Conditions(conditions)
    requires SplitInto(before, after, ids, conditions) && Dispatches(before[ids[0]], cond, cases, defaultDest, conditions, targets)
    ensures |ids| == |targets| && Distinct(ids) && Distinct(targets) && ids[0] in ids
    ensures forall x | x in ids && x in before :: x == ids[0]
    ensures forall x :: x in after <==> x in before || x in ids
    ensures forall x | x in before && x !in ids :: after[x] == before[x]
    ensures forall i, a: Assignment | 0 <= i < |ids| ::
      Follows(after, ids[i], a) <==> Follows(before, ids[0], a) && Destination(cases, defaultDest, Eval(cond, a)) == targets[i]
  {
    hide Eval, WF, Width, Sat, Holds, May, Satisfiable, Destination;
    assert |ids| == |targets|;
    forall i, a: Assignment | 0 <= i < |ids|
      ensures Follows(after, ids[i], a) <==> Follows(before, ids[0], a) && Destination(cases, defaultDest, Eval(cond, a)) == targets[i]
    {
      hide Dispatches;
      assert Narrowed(before[ids[0]], conditions[i], after[ids[i]]);
      if Sat(before[ids[0]], a) {
        DispatchExact(before[ids[0]], cond, cases, defaultDest, conditions, targets, i, a);
      }
    }
  }

  /** A state's new constraints leave the lists alone. */
  lemma SameLists(states: set<StateId>, added: seq<StateId>, removed: seq<StateId>, constraints: PathMap, nextId: StateId, id: StateId, cs: seq<Expr>)
    requires Registered(states, added, removed, constraints, nextId) && id in constraints
    ensures Registered(states, added, removed, constraints[id := cs], nextId)
  {
  }

  /** After an update, the states are those that remained. */
  lemma Published(states: set<StateId>, added: seq<StateId>, removed: seq<StateId>, constraints: PathMap, after: PathMap, nextId: StateId, paths: PathMap)
    requires Registered(states, added, removed, constraints, nextId) && Current(Remaining(states, added, removed), constraints, nextId, paths)
    requires after.Keys == Remaining(states, added, removed) && forall x | x in after :: x in constraints && after[x] == constraints[x]
    ensures Registered(after.Keys, [], [], after, nextId) && Current(after.Keys, after, nextId, paths)
    ensures Remaining(after.Keys, [], []) == after.Keys
  {
  }

  class Executor {
    const solver: Solver
    var states: set<StateId>
    var addedStates: seq<StateId>
    var removedStates: seq<StateId>
    var constraints: PathMap
    var nextId: StateId
    /** The constraints of every live or finished path. */
    ghost var paths: PathMap

    ghost predicate Valid()
      reads this
    {
      solver.Correct() && Partition(paths) && Bookkeeping()
    }

    ghost predicate Bookkeeping()
      reads this
    {
      Registered(states, addedStates, removedStates, constraints, nextId) && Current(Live(), constraints, nextId, paths)
    }

    /** The states still to be explored. */
    function Live(): set<StateId>
      reads this
    {
      Remaining(states, addedStates, removedStates)
    }

    ghost function Now(): Snapshot
      reads this
    {
      Snapshot(paths, Live(), states)
    }

    lemma LivePath(id: StateId)
      requires Valid() && id in Live()
      ensures id in constraints && id in paths && paths[id] == constraints[id]
      ensures (forall x | x in constraints :: x < nextId) && (forall x | x in paths :: x < nextId)
      ensures Conditions(paths[id]) && Satisfiable(paths[id])
    {
      hide Eval, WF, Width, Sat, Holds, FollowsOne;
    }

    /** One state, without constraints. */
    constructor (solver: Solver)
      requires solver.Correct()
      ensures Valid() && Now() == Snapshot(map[0 := []], {0}, {0})
    {
      this.solver := solver;
      states, addedStates, removedStates := {0}, [], [];
      constraints, nextId := map[0 := []], 1;
      paths := map[0 := []];
      UnconstrainedPartition(0);
    }

    /** Add a condition that the state admits. */
    method AddConstraint(id: StateId, condition: Expr) returns (ok: bool)
      requires id in constraints && Conditions(constraints[id]) && OfWidth(condition, BOOL)
      modifies this`constraints
      ensures May(old(constraints[id]), condition) ==> ok
      ensures constraints.Keys == old(constraints.Keys) && forall x | x in constraints && x != id :: constraints[x] == old(constraints[x])
      ensures ok ==> Narrowed(old(constraints[id]), condition, constraints[id])
    {
      hide Eval, WF, Width, Sat, Holds;
      if condition.Constant? {
        ConstantConditions(condition);
        return condition.value != 0;
      }
      var m := new ConstraintManager(constraints[id]);
      ok := m.AddConstraint(condition);
      constraints := constraints[id := m.constraints];
    }

    /** `ExecutionState::branch` and its registration. */
    method Copy(id: StateId) returns (ns: StateId)
      requires id in constraints
      modifies this`constraints, this`nextId, this`addedStates
      ensures ns == old(nextId) && nextId == ns + 1
      ensures constraints == old(constraints)[ns := old(constraints[id])]
      ensures addedStates == old(addedStates) + [ns]
    {
      ns := nextId;
      nextId := nextId + 1;
      constraints := constraints[ns := constraints[id]];
      addedStates := addedStates + [ns];
    }

    /** Copy a state until there is one for each of `n` conditions. */
    method CopyStates(id: StateId, n: nat, picks: nat -> nat) returns (result: seq<StateId>)
      requires id in constraints && n > 0 && (forall x | x in constraints :: x < nextId)
      modifies this`constraints, this`nextId, this`addedStates
      ensures |result| == n && result[0] == id && nextId == old(nextId) + n - 1
      ensures Distinct(result) && forall k | 0 < k < n :: result[k] == old(nextId) + k - 1
      ensures addedStates == old(addedStates) + result[1..]
      ensures forall x :: x in constraints <==> x in old(constraints) || x in result
      ensures forall x | x in constraints :: constraints[x] == if x in result then old(constraints[id]) else old(constraints[x])
    {
      result := [id];
      for i := 1 to n
        invariant |result| == i && result[0] == id && nextId == old(nextId) + i - 1
        invariant forall k | 0 < k < i :: result[k] == old(nextId) + k - 1
        invariant addedStates == old(addedStates) + result[1..]
        invariant forall x :: x in constraints <==> x in old(constraints) || x in result
        invariant forall x | x in constraints :: constraints[x] == if x in result then old(constraints[id]) else old(constraints[x])
      {
        var es := result[picks(i) % i];
        var ns := Copy(es);
        assert (result + [ns])[1..] == result[1..] + [ns];
        result := result + [ns];
      }
    }

    /** Give each state its condition. */
    method AddConstraints(ids: seq<StateId>, conditions: seq<Expr>, ghost cs: seq<Expr>)
      requires Distinct(ids) && |ids| == |conditions| && Conditions(cs) && Conditions(conditions)
      requires forall i | 0 <= i < |ids| :: ids[i] in constraints && constraints[ids[i]] == cs
      requires Splits(cs, conditions)
      modifies this`constraints
      ensures constraints.Keys == old(constraints.Keys) && forall x | x in constraints && x !in ids :: constraints[x] == old(constraints[x])
      ensures forall i | 0 <= i < |ids| :: Narrowed(cs, conditions[i], constraints[ids[i]])
    {
      hide Eval, WF, Width, Sat, Holds, Narrowed, May, TakesOne;
      for i := 0 to |ids|
        invariant constraints.Keys == old(constraints.Keys)
        invariant forall x | x in constraints && x !in ids[..i] :: constraints[x] == old(constraints[x])
        invariant forall k | 0 <= k < i :: Narrowed(cs, conditions[k], constraints[ids[k]])
      {
        assert ids[i] !in ids[..i];
        var ok := AddConstraint(ids[i], conditions[i]);
        assert ok;
      }
    }

    /** Copy a state and give each copy its condition. */
    method CopyFor(id: StateId, conditions: seq<Expr>, picks: nat -> nat) returns (result: seq<StateId>)
      requires id in constraints && |conditions| > 0 && (forall x | x in constraints :: x < nextId)
      requires Conditions(constraints[id]) && Conditions(conditions) && Splits(constraints[id], conditions)
      modifies this`constraints, this`nextId, this`addedStates
      ensures |result| == |conditions| && result[0] == id && nextId == old(nextId) + |conditions| - 1
      ensures Distinct(result) && forall k | 0 < k < |result| :: result[k] == old(nextId) + k - 1
      ensures addedStates == old(addedStates) + result[1..]
      ensures forall x :: x in constraints <==> x in old(constraints) || x in result
      ensures forall x | x in old(constraints) && x !in result :: constraints[x] == old(constraints)[x]
      ensures forall k | 0 <= k < |result| :: result[k] in constraints && Narrowed(old(constraints)[id], conditions[k], constraints[result[k]])
    {
      hide Narrowed, Splits, Conditions, Distinct;
      ghost var cs := constraints[id];
      result := CopyStates(id, |conditions|, picks);
      AddConstraints(result, conditions, cs);
    }

    /** Split a state on conditions of which each of its inputs satisfies exactly one. */
    method Branch(id: StateId, conditions: seq<Expr>, picks: nat -> nat) returns (result: seq<StateId>)
      requires Valid() && id in Live() && Conditions(conditions) && |conditions| > 0
      requires id in constraints && Conditions(constraints[id]) && Splits(constraints[id], conditions)
      modifies this
      ensures Valid()
      ensures SplitInto(old(paths), paths, result, conditions) && result[0] == id && states == old(states)
      ensures Live() == old(Live()) + (set x | x in result)
    {
      hide Eval, WF, Width, Sat, Holds, Narrowed, TakesOne, FollowsOne, May, SplitInto, Partition, Remaining, Updated, Satisfiable, Distinct, Splits, Registered, Current;
      LivePath(id);
      hide Conditions;
      result := CopyFor(id, conditions, picks);
      ListsBranch(states, old(addedStates), removedStates, old(constraints), old(nextId), paths, result, constraints);
      UpdatedSplit(paths, constraints, result, conditions);
      paths := Updated(paths, constraints, result);
    }

    /** Follow a condition. A state that admits both outcomes becomes two; one whose query timed out is
        terminated. */
    method Fork(id: StateId, condition: Expr, timedOut: bool) returns (trueState: Option<StateId>, falseState: Option<StateId>)
      requires Valid() && id in Live() && OfWidth(condition, BOOL)
      modifies this
      ensures Valid() && FinishedKept(old(paths), old(Live()), paths, Live())
      ensures timedOut ==> trueState == falseState == None && Now() == old(Now()).(live := old(Live()) - {id})
      ensures !timedOut ==> Forked(old(Now()), id, condition, trueState, falseState, Now())
    {
      hide Eval, WF, Width, Sat, Holds, FollowsOne, TakesOne, Remaining, Registered, Current, IsZero, Solver.Correct, Solver.Evaluate, Satisfiable;
      LivePath(id);
      if timedOut {
        Terminate(id);
        return None, None;
      }
      solver.EvaluateCorrect(constraints[id], condition);
      Negations(condition);
      var res := solver.Evaluate(constraints[id], condition);
      if res.True? {
        return Some(id), None;
      } else if res.False? {
        return None, Some(id);
      }
      ForkSplits(constraints[id], condition);
      var ids := Branch(id, [condition, IsZero(condition)], i => 0);
      trueState, falseState := Some(ids[0]), Some(ids[1]);
    }

    /** Split a state by where a switch sends its inputs. */
    method Switch(id: StateId, cond: Expr, cases: seq<Case>, defaultDest: nat, picks: nat -> nat) returns (result: seq<StateId>, bbOrder: seq<nat>)
      requires Valid() && id in Live() && WF(cond) && WFCases(cases, Width(cond))
      modifies this
      ensures Valid() && FinishedKept(old(paths), old(Live()), paths, Live())
      ensures Switched(old(Now()), id, cond, cases, defaultDest, result, bbOrder, Now())
    {
      hide Eval, WF, Width, Sat, Holds, FollowsOne, TakesOne, Remaining, Registered, Current, Solver.Correct, Satisfiable, Dispatches, Splits, SplitInto, WFCases, Distinct, Destination;
      LivePath(id);
      var cs := constraints[id];
      var conditions;
      conditions, bbOrder := BuildConditions(cs, cond, cases, defaultDest, solver);
      SwitchSplits(cs, cond, cases, defaultDest, conditions, bbOrder);
      result := Branch(id, conditions, picks);
      SwitchPaths(old(paths), paths, result, cond, cases, defaultDest, conditions, bbOrder);
    }

    /** Merge state `y` into state `x`. */
    method Merge(x: StateId, y: StateId, compatible: bool) returns (merged: bool)
      requires Valid() && x in Live() && y in Live() && x != y
      modifies this
      ensures Valid() && FinishedKept(old(paths), old(Live()), paths, Live())
      ensures merged == compatible
      ensures if merged then Merged(old(Now()), x, y, Now()) else Now() == old(Now())
    {
      hide Eval, WF, Width, Sat, Holds, FollowsOne, Remaining, Registered, Satisfiable;
      if !compatible {
        return false;
      }
      LivePath(x);
      LivePath(y);
      var ok, inA, inB, cs := MergeConstraints(constraints[x], constraints[y]);
      PartitionMerge(paths, x, y, cs);
      SameLists(states, addedStates, removedStates, constraints, nextId, x, cs);
      constraints := constraints[x := cs];
      paths := (paths - {y})[x := cs];
      TerminateState(y);
      return true;
    }

    /** Stop exploring a state: one the searcher knows is removed at the next update, any other at once. */
    method TerminateState(id: StateId)
      requires Registered(states, addedStates, removedStates, constraints, nextId) && id in Live()
      modifies this`addedStates, this`removedStates, this`constraints
      ensures Registered(states, addedStates, removedStates, constraints, nextId) && Live() == old(Live()) - {id}
      ensures forall x | x in Live() :: x in constraints && x in old(constraints) && constraints[x] == old(constraints[x])
      ensures id in old(addedStates) ==> id !in addedStates && id !in constraints && removedStates == old(removedStates)
      ensures id !in old(addedStates) ==> addedStates == old(addedStates) && removedStates == old(removedStates) + [id]
    {
      if id !in addedStates {
        removedStates := removedStates + [id];
      } else {
        var i :| 0 <= i < |addedStates| && addedStates[i] == id;
        ErasedMembers(addedStates, i);
        addedStates := Erased(addedStates, i);
        constraints := constraints - {id};
      }
    }

    /** End a path. */
    method Terminate(id: StateId)
      requires Valid() && id in Live()
      modifies this
      ensures Valid() && Now() == old(Now()).(live := old(Live()) - {id})
    {
      hide Partition, Registered, Remaining;
      TerminateState(id);
    }

    /** Publish the added states and delete the removed ones. */
    method UpdateStates()
      requires Valid()
      modifies this`states, this`addedStates, this`removedStates, this`constraints
      ensures Valid() && Live() == old(Live()) == states && addedStates == removedStates == []
      ensures constraints.Keys == states
    {
      hide Partition, Solver.Correct, Current;
      var removed := removedStates;
      states := states + set id | id in addedStates;
      addedStates := [];
      for i := 0 to |removed|
        invariant states == old(states + (set id | id in addedStates)) - (set id | id in removed[..i])
        invariant addedStates == [] && constraints.Keys == states
        invariant forall x | x in constraints :: x in old(constraints) && constraints[x] == old(constraints[x])
      {
        var es := removed[i];
        assert es in removed && es !in removed[..i];
        assert es in states;
        assert removed[..i + 1] == removed[..i] + [es];
        states := states - {es};
        constraints := constraints - {es};
      }
      assert removed[..|removed|] == removed;
      removedStates := [];
      Published(old(states), old(addedStates), removed, old(constraints), constraints, nextId, paths);
    }

    /** Perform one step; a step of a state that is not live is none. */
    method Perform(s: Step)
      requires Valid() && WFStep(s)
      modifies this
      ensures Valid() && FinishedKept(old(paths), old(Live()), paths, Live())
      ensures Stepped(old(Now()), s, Now())
    {
      match s
      case ForkStep(id, condition, timedOut) =>
        if id in Live() {
          var t, f := Fork(id, condition, timedOut);
        }
      case SwitchStep(id, cond, cases, defaultDest, picks) =>
        if id in Live() {
          var r, b := Switch(id, cond, cases, defaultDest, picks);
        }
      case MergeStep(id, other, compatible) =>
        if id in Live() && other in Live() && id != other {
          var m := Merge(id, other, compatible);
        }
      case TerminateStep(id) =>
        if id in Live() {
          Terminate(id);
        }
      case UpdateStep =>
        UpdateStates();
    }

    /** A run is a replay of its steps: at any time each input follows exactly one live or finished path, and what
        is finished is not touched again. */
    method Run(steps: seq<Step>) returns (ghost trace: seq<Snapshot>)
      requires Valid() && forall i | 0 <= i < |steps| :: WFStep(steps[i])
      modifies this
      ensures Valid() && FinishedKept(old(paths), old(Live()), paths, Live())
      ensures Replayed(trace, steps) && trace[0] == old(Now()) && trace[|steps|] == Now()
      ensures forall a: Assignment :: FollowsOne(paths, a)
    {
      hide WFStep, FollowsOne, Live, Stepped, Replayed;
      trace := [Now()];
      ReplayStarts(Now());
      for i := 0 to |steps|
        invariant Valid() && FinishedKept(old(paths), old(Live()), paths, Live())
        invariant |trace| == i + 1 && Replayed(trace, steps[..i]) && trace[0] == old(Now()) && trace[i] == Now()
      {
        Perform(steps[i]);
        ReplayOn(trace, steps[..i], steps[i], Now());
        trace := trace + [Now()];
        assert steps[..i + 1] == steps[..i] + [steps[i]];
      }
      assert steps[..|steps|] == steps;
    }
  }

  /** Every run from the unconstrained state is a replay that keeps the paths a partition of the inputs. */
  method Explore(solver: Solver, steps: seq<Step>) returns (executor: Executor, ghost trace: seq<Snapshot>)
    requires solver.Correct() && forall i | 0 <= i < |steps| :: WFStep(steps[i])
    ensures executor.Valid() && forall a: Assignment :: FollowsOne(executor.paths, a)
    ensures Replayed(trace, steps) && trace[0] == Snapshot(map[0 := []], {0}, {0}) && trace[|steps|] == executor.Now()
  {
    hide WFStep, FollowsOne, Solver.Correct, Replayed;
    executor := new Executor(solver);
    trace := executor.Run(steps);
  }
}
