/** The searcher guided by concrete branches: two queues of states, and the pools of branches that decide how
states move between them.
*/
module CgsSearchers {
  import opened Basics
  import opened CgsQueues

  // ---------------------------------------------------------------- the pools

  class BranchPools {
    const limit: nat
    var targets: seq<Branch>
    var partly: seq<Branch>
    var fully: seq<Branch>
    /** The branches known to be covered in full; a branch never leaves it. */
    var covered: set<Branch>
    var newFullyCovered: bool
    var newPartlyCovered: bool

    /** No branch is in a pool twice or in two pools, and the targets are not too many. */
    predicate Valid()
      reads this
    {
      && Distinct(targets) && Distinct(partly) && Distinct(fully) && |targets| <= limit
      && (forall b | b in targets :: b !in partly && b !in fully)
      && (forall b | b in partly :: b !in fully)
      && (forall b | b in fully :: b in covered)
      && (newFullyCovered ==> fully != [])
    }

    ghost function Now(): Pools
      reads this
    {
      Pools(targets, partly, fully, covered, newFullyCovered, newPartlyCovered)
    }

    constructor (limit: nat)
      ensures Valid() && targets == [] && partly == [] && fully == [] && this.limit == limit && fresh(this)
    {
      this.limit := limit;
      targets, partly, fully, covered := [], [], [], {};
      newFullyCovered, newPartlyCovered := false, false;
    }

    /** The searcher has seen the new target. */
    method SeenPartly()
      requires Valid()
      modifies this`newPartlyCovered
      ensures Valid() && !newPartlyCovered
    {
      newPartlyCovered := false;
    }

    method Clear()
      requires Valid()
      modifies this`targets
      ensures Valid() && targets == []
    {
      targets := [];
    }

    /** A concrete branch or switch is executed. `nowCovered` says that this covers it in full, `admitted` that
        it may become a target. */
    method Execute(b: Branch, nowCovered: bool, admitted: bool)
      requires Valid()
      modifies this
      ensures Now() == Executed(old(Now()), limit, b, nowCovered, admitted)
      ensures Valid() && covered == old(covered) + (if nowCovered then {b} else {})
      ensures forall x :: x in fully <==> x in old(fully) || (x == b && b in covered)
      ensures forall x :: x in targets || x in partly <==>
        ((x in old(targets) || x in old(partly)) && !(x == b && b in covered && b !in old(fully))) || (x == b && admitted && b !in covered)
      ensures b !in covered && admitted && b !in old(targets) && b !in old(partly) ==>
        if |old(targets)| < limit then targets == old(targets) + [b] && partly == old(partly) && newPartlyCovered
        else targets == old(targets) && partly == old(partly) + [b]
    {
      hide Finished;
      if nowCovered {
        covered := covered + {b};
      }
      if b !in covered && admitted {
        if b !in targets && b !in partly {
          if |targets| < limit {
            targets := targets + [b];
            newPartlyCovered := true;
          } else {
            partly := partly + [b];
          }
        }
      }
      if b in covered && b !in fully {
        Cover(b);
      }
    }

    /** A branch is covered in full: it leaves the other pools, and a waiting branch may take its place. */
    method Cover(b: Branch)
      requires Valid() && b in covered && b !in fully
      modifies this`targets, this`partly, this`fully, this`newFullyCovered, this`newPartlyCovered
      ensures Valid() && fully == old(fully) + [b]
      ensures Now() == Finished(old(Now()), b)
      ensures forall x :: x in targets || x in partly <==> (x in old(targets) || x in old(partly)) && x != b
      ensures b in old(targets) && old(partly) != [] ==>
        |targets| == |old(targets)| && targets[|targets| - 1] == old(partly)[|old(partly)| - 1] && newPartlyCovered
    {
      hide Those;
      var t := Find(targets, b);
      if t < |targets| {
        ErasedMembers(targets, t);
        ErasedWithout(targets, t);
        targets := Erased(targets, t);
        if partly != [] {
          Promote();
          newPartlyCovered := true;
        }
      } else {
        var p := Find(partly, b);
        if p < |partly| {
          ErasedMembers(partly, p);
          ErasedWithout(partly, p);
          partly := Erased(partly, p);
        } else {
          WithoutAbsent(partly, b);
        }
      }
      fully := fully + [b];
      newFullyCovered := true;
    }

    /** The branch that waits since last becomes a target. */
    method Promote()
      requires Valid() && partly != [] && |targets| < limit
      modifies this`targets, this`partly
      ensures Valid() && |targets| == |old(targets)| + 1 && |partly| == |old(partly)| - 1
      ensures targets == old(targets) + [old(partly)[|old(partly)| - 1]] && partly == old(partly)[..|old(partly)| - 1]
      ensures forall x :: x in targets || x in partly <==> x in old(targets) || x in old(partly)
    {
      var n := |partly| - 1;
      ErasedMembers(partly, n);
      assert partly[..n] == Erased(partly, n);
      assert partly[n] in partly && partly[n] !in partly[..n];
      targets := targets + [partly[n]];
      partly := partly[..n];
    }
  }

  // ---------------------------------------------------------------- the queues

  class CGSSearcher {
    const pools: BranchPools
    const oracle: Oracle
    var states: seq<State>
    var branchStates: seq<State>
    var infos: Infos
    var updateTargetBranch: bool
    var newBranchNumFromStore: nat
    var queries: nat

    ghost function Now(): Queues
      reads this`states, this`branchStates, this`infos, this`queries
    {
      Queues(states, branchStates, infos, queries)
    }

    ghost function Whole(): Search
      reads this, pools
    {
      Search(Now(), pools.Now(), updateTargetBranch, newBranchNumFromStore)
    }

    /** The queues taken together. */
    ghost function Queued(): multiset<State>
      reads this`states, this`branchStates
    {
      multiset(states) + multiset(branchStates)
    }

    ghost function QueuedStates(): set<State>
      reads this`states, this`branchStates
    {
      StatesOf(Queued())
    }

    /** Every state is queued once, in one queue, and known. */
    ghost predicate Valid()
      reads this, pools
    {
      && pools.Valid()
      && Sound(Now())
    }

    constructor (pools: BranchPools, oracle: Oracle)
      requires pools.Valid()
      ensures Valid() && Queued() == multiset{} && this.pools == pools && this.oracle == oracle && infos == map[]
    {
      this.pools, this.oracle := pools, oracle;
      states, branchStates, infos := [], [], map[];
      updateTargetBranch, newBranchNumFromStore, queries := false, 0, 0;
    }

    /** The queues hold no state twice, and none in common. */
    lemma Disjoint()
      requires Valid()
      ensures Distinct(states) && Distinct(branchStates) && forall x | x in states :: x !in branchStates
    {
      Apart(Now());
    }

    predicate Empty()
      reads this
    {
      states == [] && branchStates == []
    }

    /** The first state with a target branch, else the first of the others. */
    method SelectState() returns (e: State)
      requires !Empty()
      ensures Some(e) == FirstOf(Now()) && e in Queued()
    {
      if branchStates != [] {
        e := branchStates[0];
      } else {
        e := states[0];
      }
    }

    /** Ask whether a store value is new for a branch. */
    method IsNewStoreValue(state: State, b: Branch, sid: Store) returns (verdict: bool)
      modifies this`queries
      ensures queries == old(queries) + 1 && verdict == oracle.isNewStoreValue(old(queries), state, b, sid)
    {
      verdict := oracle.isNewStoreValue(queries, state, b, sid);
      queries := queries + 1;
    }

    /** Move the state at place `i` of the common queue to the branch queue. */
    method PromoteAt(i: nat)
      requires i < |states|
      modifies this`states, this`branchStates
      ensures states == Erased(old(states), i) && branchStates == old(branchStates) + [old(states)[i]]
    {
      branchStates := branchStates + [states[i]];
      states := Erased(states, i);
    }

    /** Move the state at place `i` of the branch queue to the front or the back of the common queue. */
    method RetireAt(i: nat, front: bool)
      requires i < |branchStates|
      modifies this`states, this`branchStates
      ensures branchStates == Erased(old(branchStates), i)
      ensures states == if front then [old(branchStates)[i]] + old(states) else old(states) + [old(branchStates)[i]]
    {
      var x := branchStates[i];
      branchStates := Erased(branchStates, i);
      states := if front then [x] + states else states + [x];
    }

    method ToBranchStates(x: State)
      requires Sound(Now())
      modifies this`states, this`branchStates
      ensures Now() == Promoted(old(Now()), x)
    {
      var i := Find(states, x);
      if i < |states| {
        Apart(Now());
        ErasedWithout(states, i);
        PromoteAt(i);
      }
    }

    method ToStates(x: State, front: bool)
      requires Sound(Now())
      modifies this`states, this`branchStates
      ensures Now() == Retired(old(Now()), x, front)
    {
      var i := Find(branchStates, x);
      if i < |branchStates| {
        Apart(Now());
        ErasedWithout(branchStates, i);
        RetireAt(i, front);
      }
    }

    /** Breadth first: the current state goes to the back of its queue. */
    method ToBack(current: State)
      requires Sound(Now()) && if branchStates == [] then current in states else current in branchStates
      modifies this`states, this`branchStates
      ensures Now() == Rotated(old(Now()), current)
    {
      Apart(Now());
      if branchStates == [] {
        var i := Find(states, current);
        ErasedWithout(states, i);
        states := Erased(states, i) + [current];
      } else {
        var i := Find(branchStates, current);
        ErasedWithout(branchStates, i);
        branchStates := Erased(branchStates, i) + [current];
      }
    }

    /** Drop a covered branch from the states that aimed at it; those left without a target, but not the current
        one, go back to the common queue. */
    method HandleFullyCoveredBranch(current: State, b: Branch)
      requires Sound(Now())
      modifies this`states, this`branchStates, this`infos
      ensures Now() == BranchCovered(old(Now()), current, b, oracle.finishedStores(b))
    {
      hide Sound, WithoutBranch, CoveringFrom;
      var gone := oracle.finishedStores(b);
      ghost var was, n := Now(), 0;
      CoveringStarts(was, current, b, gone);
      var i := 0;
      while i < |branchStates|
        invariant n <= |was.branchStates| && Now() == CoveringFrom(was, n, current, b, gone) && |branchStates| - i == |was.branchStates| - n
        decreases |was.branchStates| - n
      {
        var state := branchStates[i];
        CoveringStep(was, n, i, current, b, gone);
        infos := infos[state := infos[state].(storeValues := infos[state].storeValues - gone, branchInfos := WithoutBranch(infos[state].branchInfos, b))];
        n := n + 1;
        if state != current && infos[state].branchInfos == [] {
          RetireAt(i, false);
        } else {
          i := i + 1;
        }
      }
      CoveringEnds(was, current, b, gone);
    }

    /** A branch becomes a target: the current state aims at it through each of its stores, and so do the states
        that have a new value for one of them; they all go to the branch queue. */
    method HandlePartlyCoveredBranch(current: State, b: Branch)
      requires current in infos && Sound(Now())
      modifies this`states, this`branchStates, this`infos, this`queries
      ensures Now() == Aimed(old(Now()), current, b, oracle)
      ensures Queued() == old(Queued()) && infos.Keys == old(infos.Keys) && current !in states
      ensures infos[current] == old(infos)[current].(branchInfos := old(infos)[current].branchInfos + Aims(oracle.stores(b), b))
      ensures forall x | x in states :: x in infos && infos[x] == old(infos)[x]
    {
      hide Sound, Aims, Those, Recruited, Promoted, SelfAimed;
      ghost var was := Now();
      AimedKept(was, current, b, oracle);
      var stores := oracle.stores(b);
      AimAll(current, b, stores);
      ghost var self := Now();
      assert Sound(self) by { SameLines(was, self); SoundKept(was, self); }
      ToBranchStates(current);
      ghost var mid := Now();
      PromotedKept(self, current);
      SoundKept(self, mid);
      assert stores[..0] == [];
      for k := 0 to |stores|
        invariant Now() == RecruitedBy(mid, current, b, stores[..k], oracle)
      {
        RecruitedByKept(mid, current, b, stores[..k], oracle);
        Recruit(current, b, stores[k]);
        RecruitedByNext(mid, current, b, stores, oracle, k);
      }
      assert stores[..|stores|] == stores;
    }

    /** The current state aims at the branch through each of its stores. */
    method AimAll(current: State, b: Branch, stores: seq<Store>)
      requires current in infos
      modifies this`infos, this`queries
      ensures Now() == SelfAimed(old(Now()), current, b, stores)
    {
      hide Aims, Those;
      ghost var info := infos[current];
      AimsNone(stores, b);
      assert info.branchInfos + Aims(stores[..0], b) == info.branchInfos && stores[..0] == [];
      ThoseNone(Within(info.storeValues));
      for k := 0 to |stores|
        invariant infos == old(infos)[current := info.(branchInfos := info.branchInfos + Aims(stores[..k], b))]
        invariant queries == old(queries) + |Those(stores[..k], Within(info.storeValues))|
      {
        if stores[k] in infos[current].storeValues {
          var verdict := IsNewStoreValue(current, b, stores[k]);
        }
        AimsNext(stores, b, k);
        ThoseNext(stores, Within(info.storeValues), k);
        assert info.branchInfos + Aims(stores[..k + 1], b) == info.branchInfos + Aims(stores[..k], b) + [BranchInfo(stores[k], b)];
        infos := infos[current := infos[current].(branchInfos := infos[current].branchInfos + [BranchInfo(stores[k], b)])];
      }
      assert stores[..|stores|] == stores;
    }

    /** The states with a new value for the store aim at the branch. */
    method Recruit(current: State, b: Branch, sid: Store)
      requires Sound(Now())
      modifies this`states, this`branchStates, this`infos, this`queries
      ensures Now() == Recruited(old(Now()), current, b, sid, oracle)
    {
      hide Sound, RecruitingFrom;
      ghost var was, n := Now(), 0;
      RecruitingStarts(was, current, b, sid, oracle);
      var i := 0;
      while i < |states|
        invariant n <= |was.states| && Now() == RecruitingFrom(was, n, current, b, sid, oracle) && |states| - i == |was.states| - n
        decreases |was.states| - n
      {
        var state := states[i];
        RecruitingStep(was, n, i, current, b, sid, oracle);
        var verdict := false;
        if state != current && sid in infos[state].storeValues {
          verdict := IsNewStoreValue(state, b, sid);
        }
        n := n + 1;
        if verdict {
          infos := infos[state := infos[state].(reachBranch := false, reachStore := false, branchInfos := infos[state].branchInfos + [BranchInfo(sid, b)])];
          PromoteAt(i);
        } else {
          i := i + 1;
        }
      }
      RecruitingEnds(was, current, b, sid, oracle);
    }

    /** The current state reached a branch it aimed at. */
    method ReachBranch(current: State, pastBranch: Branch)
      requires pools.Valid() && current in infos && Sound(Now())
      modifies this`states, this`branchStates, this`infos, pools`newFullyCovered
      ensures Now() == BranchReached(old(Now()), old(pools.Now()), current, pastBranch, oracle.finishedStores)
      ensures pools.Valid() && !pools.newFullyCovered
    {
      hide Sound, WithoutBranch, BranchCovered, Retired;
      if pools.newFullyCovered {
        ghost var was := Now();
        HandleFullyCoveredBranch(current, pools.fully[|pools.fully| - 1]);
        BranchCoveredKept(was, current, pools.fully[|pools.fully| - 1], oracle.finishedStores(pools.fully[|pools.fully| - 1]));
        SoundKept(was, Now());
        if infos[current].branchInfos == [] {
          ToStates(current, true);
        }
        pools.newFullyCovered := false;
      } else {
        ghost var was := Now();
        var left := WithoutBranch(infos[current].branchInfos, pastBranch);
        infos := infos[current := infos[current].(branchInfos := left)];
        SameLines(was, Now());
        SoundKept(was, Now());
        if left == [] {
          ToStates(current, false);
        }
      }
      infos := infos[current := infos[current].(reachBranch := false)];
    }

    /** The current state passed a store that branches depend on: of the infos just added, those with a new value
        stay. */
    method ReachStore(current: State)
      requires current in infos && Sound(Now()) && newBranchNumFromStore <= |infos[current].branchInfos|
      modifies this`states, this`branchStates, this`infos, this`queries, this`newBranchNumFromStore
      ensures Now() == StoreReached(old(Now()), current, old(newBranchNumFromStore), oracle) && newBranchNumFromStore == 0
    {
      hide Sound, StoringFrom;
      ghost var was, n := Now(), 0;
      var i := |infos[current].branchInfos| - newBranchNumFromStore;
      ghost var first := i;
      StoringStarts(was, current, first, oracle);
      while i < |infos[current].branchInfos|
        invariant n <= |was.infos[current].branchInfos| - first && first <= i && current in infos
        invariant Now() == StoringFrom(was, current, first, n, oracle) && |infos[current].branchInfos| - i == |was.infos[current].branchInfos| - first - n
        invariant newBranchNumFromStore == old(newBranchNumFromStore)
        decreases |was.infos[current].branchInfos| - first - n
      {
        var branchInfo := infos[current].branchInfos[i];
        StoringStep(was, current, first, n, i, oracle);
        var verdict := IsNewStoreValue(current, branchInfo.branch, branchInfo.store);
        n := n + 1;
        if verdict {
          assert Sound(Now()) by { StoringSound(was, current, first, n - 1, Now(), oracle); }
          ToBranchStates(current);
          i := i + 1;
        } else {
          infos := infos[current := infos[current].(branchInfos := Erased(infos[current].branchInfos, i))];
        }
      }
      StoringEnds(was, current, first, oracle);
      newBranchNumFromStore := 0;
      infos := infos[current := infos[current].(reachStore := false)];
    }

    /** The states with targets forget them, and those that covered nothing new go back to the common queue. */
    method Forget()
      requires Sound(Now())
      modifies this`states, this`branchStates, this`infos
      ensures Now() == Forgotten(old(Now()))
    {
      hide Sound, ForgettingFrom;
      ghost var was, n := Now(), 0;
      ForgettingStarts(was);
      var i := 0;
      while i < |branchStates|
        invariant n <= |was.branchStates| && Now() == ForgettingFrom(was, n) && |branchStates| - i == |was.branchStates| - n
        decreases |was.branchStates| - n
      {
        var state := branchStates[i];
        ForgettingStep(was, n, i);
        infos := infos[state := infos[state].(branchInfos := [])];
        n := n + 1;
        if !infos[state].coveredNew {
          RetireAt(i, false);
        } else {
          i := i + 1;
        }
      }
      ForgettingEnds(was);
    }

    /** Choose new targets: waiting branches, the last first, take the place of the old ones. */
    method Refresh(current: State)
      requires pools.Valid() && current in infos && Sound(Now())
      modifies this`states, this`branchStates, this`infos, this`queries, this`updateTargetBranch, pools`targets, pools`partly
      ensures pools.Valid() && Whole() == Refreshed(old(Whole()), current, pools.limit, oracle)
      ensures forall b | b in pools.targets :: b in old(pools.partly)
      ensures pools.partly == [] || |pools.targets| == pools.limit
    {
      hide Sound, Forgotten, AimedAll, Chosen, BranchPools.Valid;
      ForgottenSound(Now());
      Forget();
      pools.Clear();
      ChooseTargets(current);
      updateTargetBranch := false;
    }

    /** The last waiting branches become the targets, up to the limit. */
    method ChooseTargets(current: State)
      requires pools.Valid() && pools.targets == [] && current in infos && Sound(Now())
      modifies this`states, this`branchStates, this`infos, this`queries, pools`targets, pools`partly
      ensures pools.Valid()
      ensures var waiting := old(pools.partly); var n := Least(pools.limit, |waiting|);
        && pools.targets == Chosen(waiting, n) && pools.partly == waiting[..|waiting| - n]
        && Now() == AimedAll(old(Now()), current, Chosen(waiting, n), oracle)
      ensures forall b | b in pools.targets :: b in old(pools.partly)
    {
      hide Sound, Aimed, AimedAll, Chosen, Aims, Everyone, Once, Kept, BranchPools.Valid;
      ghost var waiting, n, was := pools.partly, 0, Now();
      ChosenNone(waiting);
      AimedAllNext(was, current, [], 0, oracle);
      while |pools.targets| < pools.limit && pools.partly != []
        invariant pools.Valid() && n == |pools.targets| <= |waiting| && n <= pools.limit && (forall b | b in pools.targets :: b in waiting)
        invariant pools.partly == waiting[..|waiting| - n] && pools.targets == Chosen(waiting, n)
        invariant Now() == AimedAll(was, current, Chosen(waiting, n), oracle)
        decreases |pools.partly|
      {
        var b := pools.partly[|pools.partly| - 1];
        ChosenNext(waiting, n);
        AimedAllNext(was, current, Chosen(waiting, n), b, oracle);
        AimedAllKept(was, current, Chosen(waiting, n), oracle);
        pools.Promote();
        HandlePartlyCoveredBranch(current, b);
        n := n + 1;
      }
    }

    /** A new state joins one of the queues. */
    method PushState(state: State, toBranchStates: bool)
      modifies this`states, this`branchStates
      ensures branchStates == old(branchStates) + (if toBranchStates then [state] else [])
      ensures states == old(states) + (if toBranchStates then [] else [state])
    {
      if toBranchStates {
        branchStates := branchStates + [state];
      } else {
        states := states + [state];
      }
    }

    /** New states: those with a target or a store ahead join the branch queue. */
    method AddStates(hasCurrent: bool, addedStates: seq<State>)
      requires forall k | 0 <= k < |addedStates| :: addedStates[k] in infos
      modifies this`states, this`branchStates
      ensures Now() == Joined(old(Now()), hasCurrent, addedStates, oracle)
    {
      hide Those;
      ghost var joins := Joins(infos, hasCurrent, oracle);
      assert addedStates[..0] == [];
      ThoseNone(joins);
      ThoseNone(Not(joins));
      for k := 0 to |addedStates|
        invariant branchStates == old(branchStates) + Those(addedStates[..k], joins)
        invariant states == old(states) + Those(addedStates[..k], Not(joins))
      {
        ThoseNext(addedStates, joins, k);
        ThoseNext(addedStates, Not(joins), k);
        var state := addedStates[k];
        if !hasCurrent {
          PushState(state, false);
        } else if infos[state].branchInfos != [] {
          PushState(state, true);
        } else {
          PushState(state, oracle.coversStore(state));
        }
      }
      assert addedStates[..|addedStates|] == addedStates;
    }

    /** A state leaves the queue it is in. */
    method DropState(state: State)
      requires Distinct(states) && Distinct(branchStates) && forall x | x in states :: x !in branchStates
      modifies this`states, this`branchStates
      ensures states == Without(old(states), state) && branchStates == Without(old(branchStates), state)
    {
      var i := Find(branchStates, state);
      if i < |branchStates| {
        ErasedWithout(branchStates, i);
        WithoutAbsent(states, state);
        branchStates := Erased(branchStates, i);
        return;
      }
      WithoutAbsent(branchStates, state);
      i := Find(states, state);
      if i < |states| {
        ErasedWithout(states, i);
        states := Erased(states, i);
      } else {
        WithoutAbsent(states, state);
      }
    }

    method RemoveStates(removedStates: seq<State>)
      requires Distinct(states) && Distinct(branchStates) && forall x | x in states :: x !in branchStates
      modifies this`states, this`branchStates
      ensures Now() == Left(old(Now()), removedStates)
    {
      hide Those, Distinct;
      NoneGone(states);
      NoneGone(branchStates);
      assert removedStates[..0] == [];
      for k := 0 to |removedStates|
        invariant states == Those(old(states), Gone(removedStates[..k]))
        invariant branchStates == Those(old(branchStates), Gone(removedStates[..k]))
      {
        ThoseDistinct(old(states), Gone(removedStates[..k]));
        ThoseDistinct(old(branchStates), Gone(removedStates[..k]));
        ThoseMembers(old(states), Gone(removedStates[..k]));
        ThoseMembers(old(branchStates), Gone(removedStates[..k]));
        DropState(removedStates[k]);
        GoneNext(old(states), removedStates, k);
        GoneNext(old(branchStates), removedStates, k);
      }
      assert removedStates[..|removedStates|] == removedStates;
    }

    method PassBranch(current: State, pastBranch: Branch)
      requires pools.Valid() && Sound(Now()) && current in infos
      modifies this`states, this`branchStates, this`infos, pools`newFullyCovered
      ensures pools.Valid() && Sound(Now()) && Whole() == Branched(old(Whole()), current, pastBranch, oracle)
      ensures infos[current].reachStore == old(infos)[current].reachStore
      ensures !old(infos)[current].reachBranch ==> infos == old(infos)
    {
      hide Sound, BranchReached, BranchPools.Valid;
      if infos[current].reachBranch {
        BranchReachedSound(Now(), pools.Now(), current, pastBranch, oracle.finishedStores);
        ReachBranch(current, pastBranch);
      }
    }

    method PassStore(current: State)
      requires pools.Valid() && Sound(Now()) && current in infos
      requires infos[current].reachStore ==> newBranchNumFromStore <= |infos[current].branchInfos|
      modifies this`states, this`branchStates, this`infos, this`queries, this`newBranchNumFromStore
      ensures pools.Valid() && Sound(Now()) && Whole() == Stored(old(Whole()), current, oracle)
    {
      hide Sound, StoreReached, BranchPools.Valid;
      if infos[current].reachStore {
        StoreReachedSound(Now(), current, newBranchNumFromStore, oracle);
        ReachStore(current);
      }
    }

    method TakeTarget(current: State)
      requires pools.Valid() && Sound(Now()) && current in infos
      modifies this`states, this`branchStates, this`infos, this`queries, pools`newPartlyCovered
      ensures pools.Valid() && Whole() == Targeted(old(Whole()), current, oracle)
    {
      hide Sound, Aimed, BranchPools.Valid, Aims;
      if pools.targets != [] && pools.newPartlyCovered {
        HandlePartlyCoveredBranch(current, pools.targets[|pools.targets| - 1]);
        pools.SeenPartly();
      }
    }

    /** What happens to the current state before states are added and removed. */
    method UpdateCurrent(current: State, added: bool, pastBranch: Branch)
      requires pools.Valid() && Sound(Now()) && Some(current) == FirstOf(Now()) && current in infos
      requires infos[current].reachStore ==> !infos[current].reachBranch && newBranchNumFromStore <= |infos[current].branchInfos|
      modifies this`states, this`branchStates, this`infos, this`queries, this`newBranchNumFromStore, pools`newFullyCovered, pools`newPartlyCovered
      ensures pools.Valid() && Whole() == CurrentUpdated(old(Whole()), current, added, pastBranch, oracle)
    {
      hide Sound, Rotated, Branched, Stored, Targeted, BranchPools.Valid;
      FirstPlace(Now());
      if added {
        RotatedSound(Now(), current);
        ToBack(current);
      }
      PassBranch(current, pastBranch);
      PassStore(current);
      TakeTarget(current);
    }

    /** The queues, the infos and the pools are those of the update on values; and states are conserved: afterwards
        the queues hold, each once, the states they held and the added ones, without the removed ones. */
    method Update(current: Option<State>, addedStates: seq<State>, removedStates: seq<State>, pastBranch: Branch)
      requires Valid() && (current.Some? ==> current == FirstOf(Now())) && (updateTargetBranch ==> current.Some?)
      requires current.Some? && infos[current.value].reachStore ==>
        !infos[current.value].reachBranch && newBranchNumFromStore <= |infos[current.value].branchInfos|
      requires Distinct(addedStates) && forall x | x in addedStates :: x in infos && x !in Queued()
      requires Distinct(removedStates)
      modifies this, pools
      ensures Valid() && Queued() == old(Queued()) + multiset(addedStates) - multiset(removedStates)
      ensures Whole() == Updated(old(Whole()), current, addedStates, removedStates, pastBranch, pools.limit, oracle)
      ensures forall x :: x in states || x in branchStates <==> (x in old(states) || x in old(branchStates) || x in addedStates) && x !in removedStates
      ensures QueuedStates() == old(QueuedStates()) + (set x | x in addedStates) - (set x | x in removedStates)
      ensures infos.Keys == old(infos.Keys) && pools.covered == old(pools.covered) && pools.fully == old(pools.fully)
    {
      FirstKnown(current);
      MembersQueued();
      hide Queued, QueuedStates, Distinct, BranchPools.Valid, Updated, Sound, FirstOf, Everyone, Once, StatesOf, BranchPools.Now;
      UpdatedMembers(Whole(), current, addedStates, removedStates, pastBranch, pools.limit, oracle);
      UpdateQueues(current, addedStates, removedStates, pastBranch);
      MembersQueued();
    }

    lemma MembersQueued()
      ensures QueuedStates() == StatesOf(Everyone(Now()))
      ensures Queued() == Everyone(Now())
    {
    }

    /** The state selected is queued and known. */
    lemma FirstKnown(current: Option<State>)
      requires Valid() && (current.Some? ==> current == FirstOf(Now()))
      ensures current.Some? ==> current.value in infos && if branchStates == [] then current.value in states else current.value in branchStates
    {
      Apart(Now());
    }

    method UpdateQueues(current: Option<State>, addedStates: seq<State>, removedStates: seq<State>, pastBranch: Branch)
      requires pools.Valid() && Sound(Now()) && (updateTargetBranch ==> current.Some?)
      requires current.Some? ==> current == FirstOf(Now()) && current.value in infos
      requires current.Some? && infos[current.value].reachStore ==>
        !infos[current.value].reachBranch && newBranchNumFromStore <= |infos[current.value].branchInfos|
      requires forall x | x in addedStates :: x in infos && x !in Everyone(Now())
      requires Distinct(addedStates)
      modifies this, pools
      ensures pools.Valid() && Whole() == Updated(old(Whole()), current, addedStates, removedStates, pastBranch, pools.limit, oracle)
      ensures pools.covered == old(pools.covered) && pools.fully == old(pools.fully)
    {
      hide Sound, Everyone, BranchPools.Valid, CurrentUpdated, Refreshed, Joined, Left, Kept, Distinct;
      ghost var was := Whole();
      if current.Some? && current.value !in removedStates {
        FirstPlace(Now());
        CurrentUpdatedKept(Whole(), current.value, addedStates != [], pastBranch, oracle);
        UpdateCurrent(current.value, addedStates != [], pastBranch);
      } else {
        KeptSelf(Now());
      }
      ghost var s1 := Whole();
      SoundKept(was.queues, s1.queues);
      KeptMeans(was.queues, s1.queues);
      if updateTargetBranch {
        RefreshedKept(Whole(), current.value, pools.limit, oracle);
        Refresh(current.value);
      } else {
        KeptSelf(Now());
      }
      SoundKept(s1.queues, Now());
      KeptMeans(s1.queues, Now());
      ChangeStates(current.Some?, addedStates, removedStates);
    }

    method ChangeStates(hasCurrent: bool, addedStates: seq<State>, removedStates: seq<State>)
      requires Sound(Now()) && Distinct(addedStates) && forall x | x in addedStates :: x in infos && x !in Everyone(Now())
      modifies this`states, this`branchStates
      ensures Now() == Left(Joined(old(Now()), hasCurrent, addedStates, oracle), removedStates)
    {
      hide Sound, Joined, Left;
      JoinedSound(Now(), hasCurrent, addedStates, oracle);
      AddStates(hasCurrent, addedStates);
      Apart(Now());
      RemoveStates(removedStates);
    }

    /** What a plain account of the run would hold. */
    ghost function Account(): (c: Census)
      reads this, pools
    {
      Census(QueuedStates(), infos.Keys, pools.covered, (set b | b in pools.fully))
    }

    /** One step of a run: a branch is executed, or the searcher is told what the current state led to. States seen
        before are not taken for new ones. */
    method Perform(step: SearchStep)
      requires Valid() && WFStep(step)
      modifies this, pools
      ensures Valid() && Account() == StepOn(old(Account()), step)
      ensures Whole() == Continued(old(Whole()), step, pools.limit, oracle)
    {
      hide Sound, Executed, Updated, Learnt, FirstOf;
      if step.BranchStep? {
        pools.Execute(step.b, step.nowCovered, step.admitted);
      } else if forall x | x in step.added :: x !in infos {
        TakeIn(step);
      }
    }

    method TakeIn(step: SearchStep)
      requires Valid() && WFStep(step) && step.UpdateStep? && forall x | x in step.added :: x !in infos
      modifies this, pools
      ensures Valid() && Account() == old(Account()).(
        queued := old(Account()).queued + (set x | x in step.added) - (set x | x in step.removed), seen := old(Account()).seen + (set x | x in step.added))
      ensures Whole() == Continued(old(Whole()), step, pools.limit, oracle)
    {
      hide Sound, Updated, Queued, QueuedStates, Learnt, FirstOf, BranchPools.Valid, Distinct, Continued, Everyone, Once;
      ContinuedUpdate(Whole(), step, pools.limit, oracle);
      var current := Selected();
      Learn(current, step.info, step.fromStore, step.added, step.known, step.refresh);
      Update(current, step.added, step.removed, step.pastBranch);
    }

    /** The state selected, if there is one. */
    method Selected() returns (current: Option<State>)
      ensures current == FirstOf(Now())
    {
      if Empty() {
        return None;
      }
      var e := SelectState();
      return Some(e);
    }

    /** What the executor did to the current state, and what is known of the new states. */
    method Learn(current: Option<State>, info: StateInfo, fromStore: nat, added: seq<State>, known: Infos, refresh: bool)
      requires Valid() && current == FirstOf(Now()) && forall x | x in added :: x in known && x !in infos
      modifies this`infos, this`updateTargetBranch, this`newBranchNumFromStore
      ensures Valid() && infos.Keys == old(infos.Keys) + (set x | x in added)
      ensures infos == Learnt(old(infos), current, info, added, known) && newBranchNumFromStore == fromStore
      ensures updateTargetBranch == (refresh && current.Some?) && current == FirstOf(Now())
      ensures current.Some? ==> infos[current.value] == info
      ensures forall x | x in added :: x in infos && x !in Queued()
    {
      hide Learnt, FirstOf, Queued, Everyone, Sound, BranchPools.Valid;
      MembersQueued();
      LearntSound(Now(), current, info, added, known);
      LearntIs(infos, current, info, added, known);
      newBranchNumFromStore, updateTargetBranch := fromStore, refresh && current.Some?;
      var all := infos + map x | x in added :: known[x];
      infos := if current.Some? then all[current.value := info] else all;
      assert Now() == old(Now()).(infos := Learnt(old(infos), current, info, added, known));
    }

    /** A run continues on values step by step. Over every run the queues hold each state once and the pools stay
        disjoint; the states queued and the branches covered are those of a plain account of the steps. */
    method Run(steps: seq<SearchStep>)
      requires Valid() && forall i | 0 <= i < |steps| :: WFStep(steps[i])
      modifies this, pools
      ensures Valid() && Account() == RunOn(old(Account()), steps)
      ensures Whole() == ContinuedBy(old(Whole()), steps, pools.limit, oracle)
    {
      hide Valid, Account, StepOn, WFStep, Continued, Whole;
      for i := 0 to |steps|
        invariant Valid() && Account() == RunOn(old(Account()), steps[..i])
        invariant Whole() == ContinuedBy(old(Whole()), steps[..i], pools.limit, oracle)
      {
        Perform(steps[i]);
        assert steps[..i + 1][..i] == steps[..i];
      }
      assert steps[..|steps|] == steps;
    }
  }

  /** The states queued and ever seen, and the branches covered and known to be. */
  datatype Census = Census(queued: set<State>, seen: set<State>, covered: set<Branch>, fully: set<Branch>)

  function StepOn(c: Census, step: SearchStep): Census {
    match step
    case BranchStep(b, nowCovered, _) =>
      var covered := c.covered + (if nowCovered then {b} else {});
      c.(covered := covered, fully := if b in covered then c.fully + {b} else c.fully)
    case UpdateStep(_, _, added, _, removed, _, _) =>
      if exists x | x in added :: x in c.seen then c
      else c.(queued := c.queued + (set x | x in added) - (set x | x in removed), seen := c.seen + (set x | x in added))
  }

  function RunOn(c: Census, steps: seq<SearchStep>): Census {
    if steps == [] then c else StepOn(RunOn(c, steps[..|steps| - 1]), steps[|steps| - 1])
  }
}
