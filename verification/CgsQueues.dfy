/** The searcher guided by concrete branches, on values: what each event does to its two queues of states, to the
infos of the states and to the pools of branches.
*/
module CgsQueues {
  import opened Basics

  type State = nat
  type Branch = nat
  type Store = nat

  /** A store the state passed, and a branch that its value may cover. */
  datatype BranchInfo = BranchInfo(store: Store, branch: Branch)

  datatype StateInfo = StateInfo(branchInfos: seq<BranchInfo>, storeValues: set<Store>, coveredNew: bool, reachBranch: bool, reachStore: bool)

  type Infos = map<State, StateInfo>

  /** What the searcher learns from the program: the stores each branch depends on, whether a store value is new
      for a branch (asked with the number of the question), whether a state is about to run a store, and the
      stores no branch needs once a branch is covered. */
  datatype Oracle = Oracle(stores: Branch -> seq<Store>, isNewStoreValue: (nat, State, Branch, Store) -> bool, coversStore: State -> bool, finishedStores: Branch -> set<Store>)

  /** `states` wait in line; those in `branchStates` go first. `queries` counts the questions asked. */
  datatype Queues = Queues(states: seq<State>, branchStates: seq<State>, infos: Infos, queries: nat)

  datatype Pools = Pools(targets: seq<Branch>, partly: seq<Branch>, fully: seq<Branch>, covered: set<Branch>, newFully: bool, newPartly: bool)

  datatype Search = Search(queues: Queues, pools: Pools, refresh: bool, fromStore: nat)

  // ---------------------------------------------------------------- picking from a sequence

  /** The elements with property `p`, in their order. */
  ghost function Those(s: seq<nat>, p: nat -> bool): seq<nat> {
    if s == [] then [] else Those(s[..|s| - 1], p) + (if p(s[|s| - 1]) then [s[|s| - 1]] else [])
  }

  lemma {:induction false} ThoseMembers(s: seq<nat>, p: nat -> bool)
    ensures forall x :: x in Those(s, p) <==> x in s && p(x)
  {
    if s != [] {
      var n := |s| - 1;
      assert s == s[..n] + [s[n]];
      ThoseMembers(s[..n], p);
    }
  }

  ghost function Not(p: nat -> bool): nat -> bool {
    (x: nat) => !p(x)
  }

  ghost function Unlike(y: nat): nat -> bool {
    x => x != y
  }

  ghost function Within(xs: set<nat>): nat -> bool {
    x => x in xs
  }

  ghost function Without(s: seq<nat>, x: nat): seq<nat> {
    Those(s, Unlike(x))
  }

  lemma ThoseNext(s: seq<nat>, p: nat -> bool, n: nat)
    requires n < |s|
    ensures Those(s[..n + 1], p) == Those(s[..n], p) + (if p(s[n]) then [s[n]] else [])
  {
    assert s[..n + 1][..n] == s[..n];
  }

  lemma ThoseNone(p: nat -> bool)
    ensures Those([], p) == []
  {
  }

  lemma {:induction false} ThoseSplit(s: seq<nat>, p: nat -> bool)
    ensures multiset(s) == multiset(Those(s, p)) + multiset(Those(s, Not(p)))
  {
    if s != [] {
      var n := |s| - 1;
      assert s == s[..n] + [s[n]];
      ThoseSplit(s[..n], p);
    }
  }

  lemma {:induction false} ThoseAll(s: seq<nat>, p: nat -> bool)
    requires forall x | x in s :: p(x)
    ensures Those(s, p) == s
  {
    if s != [] {
      var n := |s| - 1;
      assert s == s[..n] + [s[n]];
      ThoseAll(s[..n], p);
    }
  }

  lemma {:induction false} ThoseDistinct(s: seq<nat>, p: nat -> bool)
    requires Distinct(s)
    ensures Distinct(Those(s, p))
  {
    if s != [] {
      var n := |s| - 1;
      assert s[n] !in s[..n];
      ThoseDistinct(s[..n], p);
      ThoseMembers(s[..n], p);
    }
  }

  lemma WithoutAbsent(s: seq<nat>, x: nat)
    requires x !in s
    ensures Without(s, x) == s
  {
    ThoseAll(s, Unlike(x));
  }

  /** Erasing the one occurrence of an element. */
  lemma {:induction false} ErasedWithout(s: seq<nat>, i: nat)
    requires i < |s| && Distinct(s)
    ensures Erased(s, i) == Without(s, s[i])
    decreases |s|
  {
    var n := |s| - 1;
    assert s == s[..n] + [s[n]];
    if i == n {
      WithoutAbsent(s[..n], s[n]);
    } else {
      ErasedWithout(s[..n], i);
      assert Erased(s, i) == Erased(s[..n], i) + [s[n]];
    }
  }

  /** An element at a cut, and the sequence once it has gone. */
  lemma AtCut<T>(front: seq<T>, s: seq<T>, n: nat)
    requires n < |s|
    ensures var t := front + s[n..];
      |t| > |front| && t[|front|] == s[n] && Erased(t, |front|) == front + s[n + 1..] && front + [s[n]] + s[n + 1..] == t
  {
  }

  /** Looking at one more element of a queue from which those without property `p` go. */
  lemma PickStep(s: seq<nat>, n: nat, i: nat, p: nat -> bool)
    requires n < |s| && i == |Those(s[..n], p)|
    ensures var t := Those(s[..n], p) + s[n..];
      && i < |t| && t[i] == s[n]
      && Those(s[..n + 1], p) + s[n + 1..] == if p(s[n]) then t else Erased(t, i)
    ensures Those(s[..n + 1], Not(p)) == Those(s[..n], Not(p)) + (if p(s[n]) then [] else [s[n]])
  {
    hide Those;
    ThoseNext(s, p, n);
    ThoseNext(s, Not(p), n);
    AtCut(Those(s[..n], p), s, n);
  }

  /** The elements for which the questions from `q` on, one for each, are answered with yes. */
  ghost function Answered<T>(s: seq<T>, q: nat, ask: (nat, T) -> bool): seq<T> {
    if s == [] then [] else
    var n := |s| - 1;
    Answered(s[..n], q, ask) + (if ask(q + n, s[n]) then [s[n]] else [])
  }

  lemma AnsweredNext<T>(s: seq<T>, q: nat, ask: (nat, T) -> bool, n: nat)
    requires n < |s|
    ensures Answered(s[..n + 1], q, ask) == Answered(s[..n], q, ask) + (if ask(q + n, s[n]) then [s[n]] else [])
  {
    assert s[..n + 1][..n] == s[..n];
  }

  // ---------------------------------------------------------------- the queues

  ghost function StatesOf(m: multiset<State>): set<State> {
    set x | x in m
  }

  ghost function Everyone(q: Queues): multiset<State> {
    multiset(q.states) + multiset(q.branchStates)
  }

  /** Nothing occurs twice. */
  ghost predicate Once(m: multiset<State>) {
    forall x | x in m :: m[x] == 1
  }

  /** Every state is queued once, in one queue, and known. */
  ghost predicate Sound(q: Queues) {
    Once(Everyone(q)) && forall x | x in Everyone(q) :: x in q.infos
  }

  /** No state comes or goes. */
  ghost predicate Kept(q: Queues, r: Queues) {
    Everyone(r) == Everyone(q) && r.infos.Keys == q.infos.Keys
  }

  lemma SoundKept(q: Queues, r: Queues)
    requires Sound(q) && Kept(q, r)
    ensures Sound(r)
  {
  }

  /** The queues hold no state twice, and none in common. */
  lemma Apart(q: Queues)
    requires Sound(q)
    ensures Distinct(q.states) && Distinct(q.branchStates) && forall x | x in q.states :: x !in q.branchStates
    ensures forall x | x in q.states || x in q.branchStates :: x in q.infos
  {
    forall x | x in q.states || x in q.branchStates ensures x in q.infos && !(x in q.states && x in q.branchStates) {
      assert x in Everyone(q) && Everyone(q)[x] == multiset(q.states)[x] + multiset(q.branchStates)[x];
    }
    OnceDistinct(q.states, q.branchStates);
    assert multiset(q.states) + multiset(q.branchStates) == multiset(q.branchStates) + multiset(q.states);
    OnceDistinct(q.branchStates, q.states);
  }

  lemma OnceDistinct(s: seq<State>, t: seq<State>)
    requires Once(multiset(s) + multiset(t))
    ensures Distinct(s)
  {
    forall i, j | 0 <= i < j < |s| ensures s[i] != s[j] {
      ErasedMultiset(s, i);
      assert Erased(s, i)[j - 1] == s[j];
      assert s[j] in Erased(s, i) && s[j] in multiset(s) + multiset(t);
      assert multiset(s)[s[j]] == multiset(Erased(s, i))[s[j]] + multiset{s[i]}[s[j]];
    }
  }

  /** Breadth first: a state goes to the back of the queue that states are taken from. */
  ghost function Rotated(q: Queues, x: State): (r: Queues)
    ensures r.infos == q.infos && r.queries == q.queries
  {
    if q.branchStates == [] then q.(states := Without(q.states, x) + [x]) else q.(branchStates := Without(q.branchStates, x) + [x])
  }

  /** A state joins the branch queue. */
  ghost function Promoted(q: Queues, x: State): (r: Queues)
    ensures r.infos == q.infos && r.queries == q.queries
  {
    if x in q.states then q.(states := Without(q.states, x), branchStates := q.branchStates + [x]) else q
  }

  /** A state goes back to the common queue. */
  ghost function Retired(q: Queues, x: State, front: bool): (r: Queues)
    ensures r.infos == q.infos && r.queries == q.queries
  {
    if x in q.branchStates then
      q.(branchStates := Without(q.branchStates, x), states := if front then [x] + q.states else q.states + [x])
    else q
  }

  lemma RotatedKept(q: Queues, x: State)
    requires Sound(q) && (if q.branchStates == [] then x in q.states else x in q.branchStates)
    ensures Kept(q, Rotated(q, x))
  {
    Apart(q);
    if q.branchStates == [] {
      WithoutMultiset(q.states, x);
    } else {
      WithoutMultiset(q.branchStates, x);
    }
  }

  lemma PromotedKept(q: Queues, x: State)
    requires Sound(q)
    ensures Kept(q, Promoted(q, x)) && x !in Promoted(q, x).states
    ensures x in q.states || x in q.branchStates ==> x in Promoted(q, x).branchStates
  {
    Apart(q);
    ThoseMembers(q.states, Unlike(x));
    if x in q.states {
      WithoutMultiset(q.states, x);
    }
  }

  /** Joining once or twice, with whatever infos, is the same. */
  lemma PromotedTwice(q: Queues, x: State, r: Queues)
    requires Sound(q)
    requires (r.states == q.states && r.branchStates == q.branchStates) || (r.states == Promoted(q, x).states && r.branchStates == Promoted(q, x).branchStates)
    ensures Promoted(r, x).states == Promoted(q, x).states && Promoted(r, x).branchStates == Promoted(q, x).branchStates
  {
    PromotedKept(q, x);
  }

  lemma RetiredKept(q: Queues, x: State, front: bool)
    requires Sound(q)
    ensures Kept(q, Retired(q, x, front)) && x !in Retired(q, x, front).branchStates
  {
    Apart(q);
    ThoseMembers(q.branchStates, Unlike(x));
    if x in q.branchStates {
      WithoutMultiset(q.branchStates, x);
    }
  }

  lemma WithoutMultiset(s: seq<nat>, x: nat)
    requires Distinct(s) && x in s
    ensures multiset(s) == multiset(Without(s, x)) + multiset{x}
  {
    hide Without;
    var i :| 0 <= i < |s| && s[i] == x;
    ErasedWithout(s, i);
    ErasedMultiset(s, i);
  }

  // ---------------------------------------------------------------- a branch was reached

  /** The infos without the first one about the branch. */
  function WithoutBranch(infos: seq<BranchInfo>, b: Branch): seq<BranchInfo> {
    if infos == [] then [] else if infos[0].branch == b then infos[1..] else [infos[0]] + WithoutBranch(infos[1..], b)
  }

  /** Exactly the first info about the branch is gone. */
  lemma {:induction false} FirstGone(infos: seq<BranchInfo>, b: Branch) returns (i: nat)
    ensures i <= |infos| && forall k | 0 <= k < i :: infos[k].branch != b
    ensures if i < |infos| then infos[i].branch == b && WithoutBranch(infos, b) == infos[..i] + infos[i + 1..] else WithoutBranch(infos, b) == infos
  {
    if infos == [] || infos[0].branch == b {
      i := 0;
    } else {
      var rest := infos[1..];
      var k := FirstGone(rest, b);
      i := k + 1;
      SplitAfter(infos, k);
      assert WithoutBranch(infos, b) == [infos[0]] + WithoutBranch(rest, b);
    }
  }

  lemma SplitAfter(infos: seq<BranchInfo>, k: nat)
    requires k < |infos|
    ensures var rest := infos[1..];
      && [infos[0]] + rest == infos && (forall j | 0 < j < k + 1 :: infos[j] == rest[j - 1])
      && (k < |rest| ==> infos[k + 1] == rest[k] && [infos[0]] + (rest[..k] + rest[k + 1..]) == infos[..k + 1] + infos[k + 2..])
  {
  }

  /** A state's info once a branch is covered and stores are no longer needed. */
  ghost function Covered(info: StateInfo, b: Branch, gone: set<Store>): StateInfo {
    info.(storeValues := info.storeValues - gone, branchInfos := WithoutBranch(info.branchInfos, b))
  }

  ghost function CoveredBy(infos: Infos, xs: seq<State>, b: Branch, gone: set<Store>): Infos {
    map x | x in infos :: if x in xs then Covered(infos[x], b, gone) else infos[x]
  }

  lemma OneCovered(infos: Infos, xs: seq<State>, n: nat, b: Branch, gone: set<Store>)
    requires Distinct(xs) && n < |xs| && xs[n] in infos
    ensures CoveredBy(infos, xs[..n], b, gone)[xs[n]] == infos[xs[n]]
    ensures CoveredBy(infos, xs[..n + 1], b, gone) == CoveredBy(infos, xs[..n], b, gone)[xs[n] := Covered(infos[xs[n]], b, gone)]
  {
    hide Covered;
    assert xs[n] !in xs[..n] && xs[..n + 1] == xs[..n] + [xs[n]];
  }

  /** The current state, and those with another target, stay in the branch queue. */
  ghost function Stays(infos: Infos, current: State, b: Branch): State -> bool {
    x => x == current || (x in infos && WithoutBranch(infos[x].branchInfos, b) != [])
  }

  /** The states of the branch queue forget a covered branch and the stores it alone needed. */
  ghost function BranchCovered(q: Queues, current: State, b: Branch, gone: set<Store>): (r: Queues)
    ensures r.infos.Keys == q.infos.Keys
  {
    var stays := Stays(q.infos, current, b);
    Queues(q.states + Those(q.branchStates, Not(stays)), Those(q.branchStates, stays), CoveredBy(q.infos, q.branchStates, b, gone), q.queries)
  }

  /** The queues when the first `n` states of the branch queue have been looked at. */
  ghost function CoveringFrom(q: Queues, n: nat, current: State, b: Branch, gone: set<Store>): (r: Queues)
    requires n <= |q.branchStates|
    ensures r.infos.Keys == q.infos.Keys
  {
    var stays, front := Stays(q.infos, current, b), q.branchStates[..n];
    Queues(q.states + Those(front, Not(stays)), Those(front, stays) + q.branchStates[n..], CoveredBy(q.infos, front, b, gone), q.queries)
  }

  lemma CoveringStarts(q: Queues, current: State, b: Branch, gone: set<Store>)
    ensures CoveringFrom(q, 0, current, b, gone) == q
  {
    assert q.branchStates[..0] == [];
    assert CoveredBy(q.infos, [], b, gone) == q.infos;
  }

  lemma CoveringEnds(q: Queues, current: State, b: Branch, gone: set<Store>)
    ensures CoveringFrom(q, |q.branchStates|, current, b, gone) == BranchCovered(q, current, b, gone)
  {
    assert q.branchStates[..|q.branchStates|] == q.branchStates;
  }

  lemma CoveringStep(q: Queues, n: nat, i: nat, current: State, b: Branch, gone: set<Store>)
    requires Sound(q) && n < |q.branchStates|
    requires var r := CoveringFrom(q, n, current, b, gone); i < |r.branchStates| && |r.branchStates| - i == |q.branchStates| - n
    ensures var r, x := CoveringFrom(q, n, current, b, gone), q.branchStates[n];
      && x in q.infos && r.branchStates[i] == x && r.infos[x] == q.infos[x]
      && var s := r.(infos := r.infos[x := Covered(q.infos[x], b, gone)]);
      CoveringFrom(q, n + 1, current, b, gone) ==
      if x == current || WithoutBranch(q.infos[x].branchInfos, b) != [] then s
      else s.(states := s.states + [x], branchStates := Erased(s.branchStates, i))
  {
    hide Distinct, Those, Covered, CoveredBy, Stays, WithoutBranch, Everyone, Once;
    var x := q.branchStates[n];
    assert x in q.infos && Distinct(q.branchStates) by { Apart(q); }
    hide Sound;
    StaysMeans(q.infos, current, b, x);
    OneCovered(q.infos, q.branchStates, n, b, gone);
    PickStep(q.branchStates, n, i, Stays(q.infos, current, b));
  }

  lemma StaysMeans(infos: Infos, current: State, b: Branch, x: State)
    requires x in infos
    ensures Stays(infos, current, b)(x) <==> x == current || WithoutBranch(infos[x].branchInfos, b) != []
  {
  }

  lemma BranchCoveredKept(q: Queues, current: State, b: Branch, gone: set<Store>)
    ensures Kept(q, BranchCovered(q, current, b, gone))
  {
    ThoseSplit(q.branchStates, Stays(q.infos, current, b));
  }

  /** The current state reached a branch it aimed at. */
  ghost function BranchReached(q: Queues, p: Pools, current: State, pastBranch: Branch, gone: Branch -> set<Store>): (r: Queues)
    requires current in q.infos
    ensures r.infos.Keys == q.infos.Keys
  {
    var r :=
      if p.newFully && p.fully != [] then
        var b := p.fully[|p.fully| - 1];
        var c := BranchCovered(q, current, b, gone(b));
        if c.infos[current].branchInfos == [] then Retired(c, current, true) else c
      else
        var left := WithoutBranch(q.infos[current].branchInfos, pastBranch);
        var c := q.(infos := q.infos[current := q.infos[current].(branchInfos := left)]);
        if left == [] then Retired(c, current, false) else c;
    r.(infos := r.infos[current := r.infos[current].(reachBranch := false)])
  }

  lemma BranchReachedKept(q: Queues, p: Pools, current: State, pastBranch: Branch, gone: Branch -> set<Store>)
    requires Sound(q) && current in q.infos
    ensures Kept(q, BranchReached(q, p, current, pastBranch, gone))
    ensures BranchReached(q, p, current, pastBranch, gone).infos[current].reachStore == q.infos[current].reachStore
  {
    hide Those, WithoutBranch, Sound, Everyone;
    var m: Queues;
    if p.newFully && p.fully != [] {
      var b := p.fully[|p.fully| - 1];
      var c := BranchCovered(q, current, b, gone(b));
      BranchCoveredKept(q, current, b, gone(b));
      SoundKept(q, c);
      RetiredKept(c, current, true);
      m := if c.infos[current].branchInfos == [] then Retired(c, current, true) else c;
    } else {
      var left := WithoutBranch(q.infos[current].branchInfos, pastBranch);
      var c := q.(infos := q.infos[current := q.infos[current].(branchInfos := left)]);
      assert Kept(q, c) by { SameLines(q, c); }
      SoundKept(q, c);
      RetiredKept(c, current, false);
      m := if left == [] then Retired(c, current, false) else c;
    }
    assert Everyone(BranchReached(q, p, current, pastBranch, gone)) == Everyone(q) by { SameLines(m, m.(infos := BranchReached(q, p, current, pastBranch, gone).infos)); }
  }

  lemma SameLines(q: Queues, r: Queues)
    requires q.states == r.states && q.branchStates == r.branchStates
    ensures Everyone(q) == Everyone(r)
  {
  }

  // ---------------------------------------------------------------- a store was passed

  ghost function AskAbout(current: State, oracle: Oracle): (nat, BranchInfo) -> bool {
    (n: nat, info: BranchInfo) => oracle.isNewStoreValue(n, current, info.branch, info.store)
  }

  /** Of the last `fromStore` infos of the current state, those with a new value stay; with one of them it joins the
      branch queue. */
  ghost function StoreReached(q: Queues, current: State, fromStore: nat, oracle: Oracle): (r: Queues)
    requires current in q.infos
    ensures r.infos.Keys == q.infos.Keys
  {
    var infos := q.infos[current].branchInfos;
    var n := if fromStore <= |infos| then |infos| - fromStore else 0;
    var newer := Answered(infos[n..], q.queries, AskAbout(current, oracle));
    var r := if newer == [] then q else Promoted(q, current);
    r.(queries := q.queries + |infos[n..]|, infos := q.infos[current := q.infos[current].(branchInfos := infos[..n] + newer, reachStore := false)])
  }

  /** The queues when `n` of the infos from `first` on have been asked about. */
  ghost function StoringFrom(q: Queues, current: State, first: nat, n: nat, oracle: Oracle): (r: Queues)
    requires current in q.infos && first + n <= |q.infos[current].branchInfos|
    ensures r.infos.Keys == q.infos.Keys
  {
    var info := q.infos[current];
    var newer := Answered(info.branchInfos[first..][..n], q.queries, AskAbout(current, oracle));
    var r := if newer == [] then q else Promoted(q, current);
    r.(queries := q.queries + n, infos := q.infos[current := info.(branchInfos := info.branchInfos[..first] + newer + info.branchInfos[first + n..])])
  }

  lemma StoringStarts(q: Queues, current: State, first: nat, oracle: Oracle)
    requires current in q.infos && first <= |q.infos[current].branchInfos|
    ensures StoringFrom(q, current, first, 0, oracle) == q
  {
    var infos := q.infos[current].branchInfos;
    assert infos[first..][..0] == [] && infos[..first] + [] + infos[first..] == infos;
  }

  lemma StoringEnds(q: Queues, current: State, first: nat, oracle: Oracle)
    requires current in q.infos && first <= |q.infos[current].branchInfos|
    ensures var r, n := StoringFrom(q, current, first, |q.infos[current].branchInfos| - first, oracle), |q.infos[current].branchInfos| - first;
      r.(infos := r.infos[current := r.infos[current].(reachStore := false)]) == StoreReached(q, current, n, oracle)
  {
    var infos := q.infos[current].branchInfos;
    var newer := Answered(infos[first..], q.queries, AskAbout(current, oracle));
    hide Answered, Promoted;
    assert infos[first..][..|infos| - first] == infos[first..];
    assert infos[..first] + newer + infos[|infos|..] == infos[..first] + newer;
  }

  lemma AskedAbout(current: State, oracle: Oracle, n: nat, info: BranchInfo)
    ensures AskAbout(current, oracle)(n, info) == oracle.isNewStoreValue(n, current, info.branch, info.store)
  {
  }

  lemma StoringStep(q: Queues, current: State, first: nat, n: nat, i: nat, oracle: Oracle)
    requires Sound(q) && current in q.infos && first + n < |q.infos[current].branchInfos|
    requires var r := StoringFrom(q, current, first, n, oracle);
      i < |r.infos[current].branchInfos| && |r.infos[current].branchInfos| - i == |q.infos[current].branchInfos| - first - n
    ensures var r, info := StoringFrom(q, current, first, n, oracle), q.infos[current].branchInfos[first + n];
      && r.infos[current].branchInfos[i] == info
      && StoringFrom(q, current, first, n + 1, oracle) ==
      if oracle.isNewStoreValue(r.queries, current, info.branch, info.store) then Promoted(r.(queries := r.queries + 1), current)
      else r.(queries := r.queries + 1, infos := r.infos[current := r.infos[current].(branchInfos := Erased(r.infos[current].branchInfos, i))])
  {
    hide Sound, Answered, Promoted, AskAbout;
    var r, info := StoringFrom(q, current, first, n, oracle), q.infos[current].branchInfos[first + n];
    AskedInfos(q.infos[current].branchInfos, first, n, i, q.queries, AskAbout(current, oracle));
    AskedAbout(current, oracle, q.queries + n, info);
    var r' := StoringFrom(q, current, first, n + 1, oracle);
    if oracle.isNewStoreValue(q.queries + n, current, info.branch, info.store) {
      var t := r.(queries := q.queries + n + 1);
      PromotedTwice(q, current, t);
      assert r'.infos == r.infos == Promoted(t, current).infos;
    } else {
      OverInfo(q.infos, current, r.infos[current], r'.infos[current]);
      assert r'.states == r.states && r'.branchStates == r.branchStates;
    }
  }

  lemma OverInfo(infos: Infos, x: State, info: StateInfo, info': StateInfo)
    ensures infos[x := info][x := info'] == infos[x := info']
  {
  }

  /** Asking about one more info. */
  lemma AskedInfos(infos: seq<BranchInfo>, first: nat, n: nat, i: nat, queries: nat, ask: (nat, BranchInfo) -> bool)
    requires first + n < |infos|
    requires var newer := Answered(infos[first..][..n], queries, ask); i == first + |newer|
    ensures var newer, newer' := Answered(infos[first..][..n], queries, ask), Answered(infos[first..][..n + 1], queries, ask);
      var t := infos[..first] + newer + infos[first + n..];
      && i < |t| && t[i] == infos[first + n]
      && newer' == newer + (if ask(queries + n, infos[first + n]) then [infos[first + n]] else [])
      && infos[..first] + newer' + infos[first + n + 1..] == if ask(queries + n, infos[first + n]) then t else Erased(t, i)
  {
    hide Answered;
    var tail := infos[first..];
    var newer := Answered(tail[..n], queries, ask);
    AnsweredNext(tail, queries, ask, n);
    AtCut(infos[..first] + newer, tail, n);
    assert infos[first + n..] == tail[n..] && infos[first + n + 1..] == tail[n + 1..];
    assert infos[..first] + (newer + [tail[n]]) == infos[..first] + newer + [tail[n]] && newer + [] == newer;
  }

  lemma StoringSound(q: Queues, current: State, first: nat, n: nat, r: Queues, oracle: Oracle)
    requires Sound(q) && current in q.infos && first + n <= |q.infos[current].branchInfos|
    requires r.infos == StoringFrom(q, current, first, n, oracle).infos
    requires r.states == StoringFrom(q, current, first, n, oracle).states && r.branchStates == StoringFrom(q, current, first, n, oracle).branchStates
    ensures Sound(r)
  {
    hide Sound, Answered, Promoted, Everyone;
    PromotedKept(q, current);
    SoundKept(q, Promoted(q, current));
    SameLines(q, r.(states := q.states, branchStates := q.branchStates));
    SameLines(StoringFrom(q, current, first, n, oracle), r);
    SameLines(StoringFrom(q, current, first, n, oracle), StoringFrom(q, current, first, n, oracle).(infos := q.infos, queries := q.queries));
    assert Kept(q, r);
    SoundKept(q, r);
  }

  lemma StoreReachedKept(q: Queues, current: State, fromStore: nat, oracle: Oracle)
    requires Sound(q) && current in q.infos
    ensures Kept(q, StoreReached(q, current, fromStore, oracle))
  {
    PromotedKept(q, current);
  }

  // ---------------------------------------------------------------- a branch becomes a target

  /** An info for each store of the branch. */
  function Aims(stores: seq<Store>, b: Branch): (r: seq<BranchInfo>)
    ensures |r| == |stores|
  {
    seq(|stores|, k requires 0 <= k < |stores| => BranchInfo(stores[k], b))
  }

  lemma AimsNone(stores: seq<Store>, b: Branch)
    ensures Aims(stores[..0], b) == []
  {
  }

  lemma AimsNext(stores: seq<Store>, b: Branch, k: nat)
    requires k < |stores|
    ensures Aims(stores[..k + 1], b) == Aims(stores[..k], b) + [BranchInfo(stores[k], b)]
  {
  }

  datatype Recruits = Recruits(kept: seq<State>, recruited: seq<State>, queries: nat)

  /** A state other than the current one, with a value for the store, may have a new one. */
  ghost function Candidate(infos: Infos, current: State, sid: Store): State -> bool {
    x => x != current && x in infos && sid in infos[x].storeValues
  }

  lemma CandidateMeans(infos: Infos, current: State, sid: Store, x: State)
    requires x in infos
    ensures Candidate(infos, current, sid)(x) <==> x != current && sid in infos[x].storeValues
  {
  }

  /** Each candidate in turn is asked for. */
  ghost function Recruiting(s: seq<State>, infos: Infos, current: State, b: Branch, sid: Store, queries: nat, oracle: Oracle): Recruits {
    if s == [] then Recruits([], [], queries) else
    var x := s[|s| - 1];
    var r := Recruiting(s[..|s| - 1], infos, current, b, sid, queries, oracle);
    if !Candidate(infos, current, sid)(x) then r.(kept := r.kept + [x])
    else if oracle.isNewStoreValue(r.queries, x, b, sid) then r.(recruited := r.recruited + [x], queries := r.queries + 1)
    else r.(kept := r.kept + [x], queries := r.queries + 1)
  }

  lemma RecruitingNext(s: seq<State>, infos: Infos, current: State, b: Branch, sid: Store, queries: nat, oracle: Oracle, n: nat)
    requires n < |s|
    ensures var r := Recruiting(s[..n], infos, current, b, sid, queries, oracle);
      Recruiting(s[..n + 1], infos, current, b, sid, queries, oracle) ==
      if !Candidate(infos, current, sid)(s[n]) then r.(kept := r.kept + [s[n]])
      else if oracle.isNewStoreValue(r.queries, s[n], b, sid) then r.(recruited := r.recruited + [s[n]], queries := r.queries + 1)
      else r.(kept := r.kept + [s[n]], queries := r.queries + 1)
  {
    assert s[..n + 1][..n] == s[..n];
  }

  /** Every candidate is asked for once, in order, and recruited exactly when its value is new. */
  lemma {:induction false} RecruitingMeans(s: seq<State>, infos: Infos, current: State, b: Branch, sid: Store, queries: nat, oracle: Oracle, k: nat)
    requires Distinct(s) && k < |s|
    ensures s[k] in Recruiting(s, infos, current, b, sid, queries, oracle).recruited <==>
      && Candidate(infos, current, sid)(s[k])
      && oracle.isNewStoreValue(queries + |Those(s[..k], Candidate(infos, current, sid))|, s[k], b, sid)
  {
    hide Candidate, Those, Recruiting;
    var n := |s| - 1;
    assert s[..n + 1] == s;
    RecruitingNext(s, infos, current, b, sid, queries, oracle, n);
    RecruitingSplit(s[..n], infos, current, b, sid, queries, oracle);
    if k == n {
      assert s[n] !in s[..n];
      RecruitingAsks(s[..n], infos, current, b, sid, queries, oracle);
    } else {
      assert s[..n][..k] == s[..k] && s[k] != s[n];
      RecruitingMeans(s[..n], infos, current, b, sid, queries, oracle, k);
    }
  }

  lemma {:induction false} RecruitingAsks(s: seq<State>, infos: Infos, current: State, b: Branch, sid: Store, queries: nat, oracle: Oracle)
    ensures Recruiting(s, infos, current, b, sid, queries, oracle).queries == queries + |Those(s, Candidate(infos, current, sid))|
  {
    hide Candidate;
    if s != [] {
      RecruitingAsks(s[..|s| - 1], infos, current, b, sid, queries, oracle);
    }
  }

  /** Those recruited leave, and the others stay. */
  lemma {:induction false} RecruitingSplit(s: seq<State>, infos: Infos, current: State, b: Branch, sid: Store, queries: nat, oracle: Oracle)
    ensures var r := Recruiting(s, infos, current, b, sid, queries, oracle);
      && multiset(s) == multiset(r.kept) + multiset(r.recruited)
      && (forall x :: x in s <==> x in r.kept || x in r.recruited)
      && current !in r.recruited
  {
    hide Candidate;
    if s != [] {
      var n := |s| - 1;
      assert s == s[..n] + [s[n]];
      RecruitingSplit(s[..n], infos, current, b, sid, queries, oracle);
      NoCandidate(infos, current, sid);
    }
  }

  ghost function AimedAt(infos: Infos, xs: seq<State>, b: Branch, sid: Store): Infos {
    map x | x in infos :: if x in xs then infos[x].(reachBranch := false, reachStore := false, branchInfos := infos[x].branchInfos + [BranchInfo(sid, b)]) else infos[x]
  }

  /** The next state has its info as it was, and is recruited at most once. */
  lemma OneAimed(infos: Infos, s: seq<State>, n: nat, current: State, b: Branch, sid: Store, queries: nat, oracle: Oracle)
    requires Distinct(s) && n < |s| && s[n] in infos
    ensures var recruited := Recruiting(s[..n], infos, current, b, sid, queries, oracle).recruited;
      && AimedAt(infos, recruited, b, sid)[s[n]] == infos[s[n]]
      && AimedAt(infos, recruited + [s[n]], b, sid) == AimedAt(infos, recruited, b, sid)[s[n] :=
        infos[s[n]].(reachBranch := false, reachStore := false, branchInfos := infos[s[n]].branchInfos + [BranchInfo(sid, b)])]
  {
    hide Recruiting;
    assert s[n] !in s[..n];
    RecruitingSplit(s[..n], infos, current, b, sid, queries, oracle);
  }

  /** The states with a new value for the store aim at the branch, and join the branch queue. */
  ghost function Recruited(q: Queues, current: State, b: Branch, sid: Store, oracle: Oracle): (r: Queues)
    ensures r.infos.Keys == q.infos.Keys
  {
    var r := Recruiting(q.states, q.infos, current, b, sid, q.queries, oracle);
    Queues(r.kept, q.branchStates + r.recruited, AimedAt(q.infos, r.recruited, b, sid), r.queries)
  }

  /** The queues when the first `n` states of the common queue have been looked at. */
  ghost function RecruitingFrom(q: Queues, n: nat, current: State, b: Branch, sid: Store, oracle: Oracle): (r: Queues)
    requires n <= |q.states|
    ensures r.infos.Keys == q.infos.Keys
  {
    var r := Recruiting(q.states[..n], q.infos, current, b, sid, q.queries, oracle);
    Queues(r.kept + q.states[n..], q.branchStates + r.recruited, AimedAt(q.infos, r.recruited, b, sid), r.queries)
  }

  lemma RecruitingStarts(q: Queues, current: State, b: Branch, sid: Store, oracle: Oracle)
    ensures RecruitingFrom(q, 0, current, b, sid, oracle) == q
  {
    assert q.states[..0] == [] && AimedAt(q.infos, [], b, sid) == q.infos;
  }

  lemma RecruitingEnds(q: Queues, current: State, b: Branch, sid: Store, oracle: Oracle)
    ensures RecruitingFrom(q, |q.states|, current, b, sid, oracle) == Recruited(q, current, b, sid, oracle)
  {
    assert q.states[..|q.states|] == q.states;
  }

  lemma RecruitingStep(q: Queues, n: nat, i: nat, current: State, b: Branch, sid: Store, oracle: Oracle)
    requires Sound(q) && n < |q.states|
    requires var r := RecruitingFrom(q, n, current, b, sid, oracle); i < |r.states| && |r.states| - i == |q.states| - n
    ensures var r, x := RecruitingFrom(q, n, current, b, sid, oracle), q.states[n];
      && x in q.infos && r.states[i] == x && r.infos[x] == q.infos[x]
      && RecruitingFrom(q, n + 1, current, b, sid, oracle) ==
      if x == current || sid !in q.infos[x].storeValues then r
      else if oracle.isNewStoreValue(r.queries, x, b, sid) then
        Queues(Erased(r.states, i), r.branchStates + [x],
          r.infos[x := r.infos[x].(reachBranch := false, reachStore := false, branchInfos := r.infos[x].branchInfos + [BranchInfo(sid, b)])], r.queries + 1)
      else r.(queries := r.queries + 1)
  {
    hide Distinct, Recruiting, AimedAt, Candidate, Everyone, Once;
    assert q.states[n] in q.infos && Distinct(q.states) by { Apart(q); }
    hide Sound;
    CandidateMeans(q.infos, current, sid, q.states[n]);
    OneAimed(q.infos, q.states, n, current, b, sid, q.queries, oracle);
    RecruitingNext(q.states, q.infos, current, b, sid, q.queries, oracle, n);
    AtCut(Recruiting(q.states[..n], q.infos, current, b, sid, q.queries, oracle).kept, q.states, n);
  }

  lemma RecruitedKept(q: Queues, current: State, b: Branch, sid: Store, oracle: Oracle)
    requires Sound(q)
    ensures var r := Recruited(q, current, b, sid, oracle);
      && Kept(q, r) && Sound(r)
      && (forall x | x in r.states :: x in q.states && x in q.infos && r.infos[x] == q.infos[x])
      && (forall x | x in q.branchStates :: x in r.branchStates)
      && (current in q.infos ==> r.infos[current] == q.infos[current])
  {
    hide Recruiting, Once;
    Apart(q);
    RecruitingSplit(q.states, q.infos, current, b, sid, q.queries, oracle);
    var r, recruits := Recruited(q, current, b, sid, oracle), Recruiting(q.states, q.infos, current, b, sid, q.queries, oracle);
    assert multiset(r.branchStates) == multiset(q.branchStates) + multiset(recruits.recruited);
    SoundKept(q, r);
    Apart(r);
  }

  /** A state changes queue exactly when it is a candidate with a new value, and then it aims at the branch. */
  lemma RecruitedMeans(q: Queues, current: State, b: Branch, sid: Store, oracle: Oracle, k: nat)
    requires Sound(q) && k < |q.states|
    ensures var x, r := q.states[k], Recruited(q, current, b, sid, oracle);
      var newValue := x != current && sid in q.infos[x].storeValues
        && oracle.isNewStoreValue(q.queries + |Those(q.states[..k], Candidate(q.infos, current, sid))|, x, b, sid);
      && (x in r.branchStates <==> newValue) && (x in r.states <==> !newValue)
      && r.infos[x].branchInfos == q.infos[x].branchInfos + (if newValue then [BranchInfo(sid, b)] else [])
  {
    hide Recruited, Recruiting, Those, Distinct, Kept, Once, Everyone;
    var x, r := q.states[k], Recruited(q, current, b, sid, oracle);
    assert x in q.infos && x !in q.branchStates && Distinct(q.states) by { Apart(q); }
    assert !(x in r.states && x in r.branchStates) by {
      RecruitedKept(q, current, b, sid, oracle);
      Apart(r);
    }
    hide Sound;
    RecruitingMeans(q.states, q.infos, current, b, sid, q.queries, oracle, k);
    RecruitedPlace(q, current, b, sid, oracle, x);
  }

  lemma RecruitedPlace(q: Queues, current: State, b: Branch, sid: Store, oracle: Oracle, x: State)
    requires x in q.states && x in q.infos && x !in q.branchStates
    ensures var r, recruited := Recruited(q, current, b, sid, oracle), Recruiting(q.states, q.infos, current, b, sid, q.queries, oracle).recruited;
      && (x in r.branchStates <==> x in recruited) && (x !in recruited ==> x in r.states)
      && r.infos[x].branchInfos == q.infos[x].branchInfos + (if x in recruited then [BranchInfo(sid, b)] else [])
  {
    RecruitingSplit(q.states, q.infos, current, b, sid, q.queries, oracle);
  }

  lemma NoCandidate(infos: Infos, current: State, sid: Store)
    ensures !Candidate(infos, current, sid)(current)
  {
  }

  ghost function RecruitedBy(q: Queues, current: State, b: Branch, stores: seq<Store>, oracle: Oracle): (r: Queues)
    ensures r.infos.Keys == q.infos.Keys
  {
    if stores == [] then q
    else Recruited(RecruitedBy(q, current, b, stores[..|stores| - 1], oracle), current, b, stores[|stores| - 1], oracle)
  }

  lemma RecruitedByNext(q: Queues, current: State, b: Branch, stores: seq<Store>, oracle: Oracle, k: nat)
    requires k < |stores|
    ensures RecruitedBy(q, current, b, stores[..k + 1], oracle) == Recruited(RecruitedBy(q, current, b, stores[..k], oracle), current, b, stores[k], oracle)
  {
    assert stores[..k + 1][..k] == stores[..k];
  }

  lemma {:induction false} RecruitedByKept(q: Queues, current: State, b: Branch, stores: seq<Store>, oracle: Oracle)
    requires Sound(q)
    ensures var r := RecruitedBy(q, current, b, stores, oracle);
      && Kept(q, r) && Sound(r)
      && (forall x | x in r.states :: x in q.states && x in q.infos && r.infos[x] == q.infos[x])
      && (forall x | x in q.branchStates :: x in r.branchStates)
      && (current in q.infos ==> r.infos[current] == q.infos[current])
  {
    hide Recruited, Sound, Everyone;
    if stores == [] {
      Apart(q);
    } else {
      RecruitedByKept(q, current, b, stores[..|stores| - 1], oracle);
      RecruitedKept(RecruitedBy(q, current, b, stores[..|stores| - 1], oracle), current, b, stores[|stores| - 1], oracle);
    }
  }

  /** The current state aims at the branch through each of its stores, after the questions for those it has a value
      for. */
  ghost function SelfAimed(q: Queues, current: State, b: Branch, stores: seq<Store>): (r: Queues)
    requires current in q.infos
    ensures r.infos.Keys == q.infos.Keys
  {
    var info := q.infos[current];
    q.(infos := q.infos[current := info.(branchInfos := info.branchInfos + Aims(stores, b))],
       queries := q.queries + |Those(stores, Within(info.storeValues))|)
  }

  /** A branch becomes a target: the current state aims at it and joins the branch queue, and so do the states with
      a new value for one of its stores. */
  ghost function Aimed(q: Queues, current: State, b: Branch, oracle: Oracle): (r: Queues)
    requires current in q.infos
    ensures r.infos.Keys == q.infos.Keys
  {
    RecruitedBy(Promoted(SelfAimed(q, current, b, oracle.stores(b)), current), current, b, oracle.stores(b), oracle)
  }

  /** The states left in the common queue know nothing of the new target, and the current one is not among them. */
  lemma AimedKept(q: Queues, current: State, b: Branch, oracle: Oracle)
    requires Sound(q) && current in q.infos
    ensures var r := Aimed(q, current, b, oracle);
      && Kept(q, r) && Sound(r) && current !in r.states
      && (current in q.states || current in q.branchStates ==> current in r.branchStates)
      && r.infos[current] == q.infos[current].(branchInfos := q.infos[current].branchInfos + Aims(oracle.stores(b), b))
      && (forall x | x in r.states :: x in q.states && r.infos[x] == q.infos[x])
  {
    hide RecruitedBy, Those, Aims, Everyone;
    var stores := oracle.stores(b);
    var s := SelfAimed(q, current, b, stores);
    SameLines(q, s);
    SoundKept(q, s);
    PromotedKept(s, current);
    var p := Promoted(s, current);
    SoundKept(s, p);
    RecruitedByKept(p, current, b, stores, oracle);
    var r := RecruitedBy(p, current, b, stores, oracle);
    assert current !in r.states;
    assert forall x | x in r.states :: x in p.states && x in p.infos && r.infos[x] == p.infos[x];
    assert forall x | x in p.states :: x in q.states && x != current by { StillCommon(s, current); }
  }

  lemma StillCommon(q: Queues, x: State)
    ensures forall y | y in Promoted(q, x).states :: y in q.states && y != x
  {
    ThoseMembers(q.states, Unlike(x));
  }

  ghost function AimedAll(q: Queues, current: State, targets: seq<Branch>, oracle: Oracle): (r: Queues)
    requires current in q.infos
    ensures r.infos.Keys == q.infos.Keys
  {
    if targets == [] then q
    else Aimed(AimedAll(q, current, targets[..|targets| - 1], oracle), current, targets[|targets| - 1], oracle)
  }

  lemma AimedAllNext(q: Queues, current: State, targets: seq<Branch>, b: Branch, oracle: Oracle)
    requires current in q.infos
    ensures AimedAll(q, current, targets + [b], oracle) == Aimed(AimedAll(q, current, targets, oracle), current, b, oracle)
    ensures AimedAll(q, current, [], oracle) == q
  {
    hide Aimed;
    assert (targets + [b])[..|targets|] == targets;
  }

  lemma {:induction false} AimedAllKept(q: Queues, current: State, targets: seq<Branch>, oracle: Oracle)
    requires Sound(q) && current in q.infos
    ensures Kept(q, AimedAll(q, current, targets, oracle)) && Sound(AimedAll(q, current, targets, oracle))
  {
    hide Aimed, Sound, Everyone;
    if targets != [] {
      AimedAllKept(q, current, targets[..|targets| - 1], oracle);
      AimedKept(AimedAll(q, current, targets[..|targets| - 1], oracle), current, targets[|targets| - 1], oracle);
    }
  }

  // ---------------------------------------------------------------- new targets

  ghost function ForgottenBy(infos: Infos, xs: seq<State>): Infos {
    map x | x in infos :: if x in xs then infos[x].(branchInfos := []) else infos[x]
  }

  lemma OneForgotten(infos: Infos, xs: seq<State>, n: nat)
    requires Distinct(xs) && n < |xs| && xs[n] in infos
    ensures ForgottenBy(infos, xs[..n])[xs[n]] == infos[xs[n]]
    ensures ForgottenBy(infos, xs[..n + 1]) == ForgottenBy(infos, xs[..n])[xs[n] := infos[xs[n]].(branchInfos := [])]
  {
    assert xs[n] !in xs[..n] && xs[..n + 1] == xs[..n] + [xs[n]];
  }

  ghost function CoveredNew(infos: Infos): State -> bool {
    x => x in infos && infos[x].coveredNew
  }

  /** The states of the branch queue forget their targets; those that covered nothing new leave it. */
  ghost function Forgotten(q: Queues): (r: Queues)
    ensures r.infos.Keys == q.infos.Keys
  {
    Queues(q.states + Those(q.branchStates, Not(CoveredNew(q.infos))), Those(q.branchStates, CoveredNew(q.infos)), ForgottenBy(q.infos, q.branchStates), q.queries)
  }

  ghost function ForgettingFrom(q: Queues, n: nat): (r: Queues)
    requires n <= |q.branchStates|
    ensures r.infos.Keys == q.infos.Keys
  {
    var stays, front := CoveredNew(q.infos), q.branchStates[..n];
    Queues(q.states + Those(front, Not(stays)), Those(front, stays) + q.branchStates[n..], ForgottenBy(q.infos, front), q.queries)
  }

  lemma ForgettingStarts(q: Queues)
    ensures ForgettingFrom(q, 0) == q
  {
    assert q.branchStates[..0] == [];
    assert ForgottenBy(q.infos, []) == q.infos;
  }

  lemma ForgettingEnds(q: Queues)
    ensures ForgettingFrom(q, |q.branchStates|) == Forgotten(q)
  {
    assert q.branchStates[..|q.branchStates|] == q.branchStates;
  }

  lemma ForgettingStep(q: Queues, n: nat, i: nat)
    requires Sound(q) && n < |q.branchStates|
    requires var r := ForgettingFrom(q, n); i < |r.branchStates| && |r.branchStates| - i == |q.branchStates| - n
    ensures var r, x := ForgettingFrom(q, n), q.branchStates[n];
      && x in q.infos && r.branchStates[i] == x && r.infos[x] == q.infos[x]
      && var s := r.(infos := r.infos[x := r.infos[x].(branchInfos := [])]);
      ForgettingFrom(q, n + 1) == if q.infos[x].coveredNew then s else s.(states := s.states + [x], branchStates := Erased(s.branchStates, i))
  {
    hide Everyone, Once;
    var stays, x := CoveredNew(q.infos), q.branchStates[n];
    assert x in q.infos && Distinct(q.branchStates) by { Apart(q); }
    assert stays(x) <==> q.infos[x].coveredNew;
    hide Sound, Distinct, Those, ForgottenBy, CoveredNew;
    OneForgotten(q.infos, q.branchStates, n);
    PickStep(q.branchStates, n, i, stays);
  }

  lemma ForgottenKept(q: Queues)
    ensures Kept(q, Forgotten(q))
  {
    ThoseSplit(q.branchStates, CoveredNew(q.infos));
  }

  lemma ForgottenSound(q: Queues)
    requires Sound(q)
    ensures Sound(Forgotten(q))
  {
    ForgottenKept(q);
    SoundKept(q, Forgotten(q));
  }

  /** The last `n` waiting branches, the last first. */
  ghost function Chosen(partly: seq<Branch>, n: nat): (r: seq<Branch>)
    requires n <= |partly|
    ensures |r| == n
  {
    if n == 0 then [] else Chosen(partly, n - 1) + [partly[|partly| - n]]
  }

  lemma ChosenNone(partly: seq<Branch>)
    ensures Chosen(partly, 0) == [] && partly[..|partly|] == partly
  {
  }

  lemma ChosenNext(partly: seq<Branch>, n: nat)
    requires n < |partly|
    ensures var b := partly[..|partly| - n][|partly| - n - 1];
      Chosen(partly, n + 1) == Chosen(partly, n) + [b] && partly[..|partly| - n][..|partly| - n - 1] == partly[..|partly| - n - 1] && b in partly
  {
  }

  lemma {:induction false} ChosenAt(partly: seq<Branch>, n: nat, k: nat)
    requires k < n <= |partly|
    ensures Chosen(partly, n)[k] == partly[|partly| - 1 - k]
  {
    if k < n - 1 {
      ChosenAt(partly, n - 1, k);
    }
  }

  ghost function Least(m: nat, n: nat): nat {
    if m <= n then m else n
  }

  /** The old targets are forgotten, and the current state aims at the new ones. */
  ghost function Refreshed(s: Search, current: State, limit: nat, oracle: Oracle): (r: Search)
    requires current in s.queues.infos
    ensures r.queues.infos.Keys == s.queues.infos.Keys
  {
    var n := Least(limit, |s.pools.partly|);
    var targets := Chosen(s.pools.partly, n);
    s.(queues := AimedAll(Forgotten(s.queues), current, targets, oracle),
       pools := s.pools.(targets := targets, partly := s.pools.partly[..|s.pools.partly| - n]), refresh := false)
  }

  lemma RefreshedKept(s: Search, current: State, limit: nat, oracle: Oracle)
    requires Sound(s.queues) && current in s.queues.infos
    ensures Kept(s.queues, Refreshed(s, current, limit, oracle).queues)
  {
    hide AimedAll, Forgotten, Sound;
    ForgottenKept(s.queues);
    SoundKept(s.queues, Forgotten(s.queues));
    AimedAllKept(Forgotten(s.queues), current, Chosen(s.pools.partly, Least(limit, |s.pools.partly|)), oracle);
  }

  // ---------------------------------------------------------------- states come and go

  ghost function Joins(infos: Infos, hasCurrent: bool, oracle: Oracle): State -> bool {
    (x: State) => hasCurrent && ((x in infos && infos[x].branchInfos != []) || oracle.coversStore(x))
  }

  /** New states with a target or a store ahead join the branch queue, the others the common one. */
  ghost function Joined(q: Queues, hasCurrent: bool, added: seq<State>, oracle: Oracle): (r: Queues)
    ensures r.infos == q.infos
  {
    var joins := Joins(q.infos, hasCurrent, oracle);
    q.(states := q.states + Those(added, Not(joins)), branchStates := q.branchStates + Those(added, joins))
  }

  lemma JoinedEveryone(q: Queues, hasCurrent: bool, added: seq<State>, oracle: Oracle)
    ensures Everyone(Joined(q, hasCurrent, added, oracle)) == Everyone(q) + multiset(added)
  {
    ThoseSplit(added, Joins(q.infos, hasCurrent, oracle));
  }

  /** Those not among the removed. */
  ghost function Gone(removed: seq<State>): State -> bool {
    x => x !in removed
  }

  ghost function Left(q: Queues, removed: seq<State>): (r: Queues)
    ensures r.infos == q.infos
  {
    var stays := Gone(removed);
    q.(states := Those(q.states, stays), branchStates := Those(q.branchStates, stays))
  }

  // ---------------------------------------------------------------- the whole update

  /** The current state may have reached a branch it aimed at. */
  ghost function Branched(s: Search, x: State, pastBranch: Branch, oracle: Oracle): (r: Search)
    requires x in s.queues.infos
    ensures r.queues.infos.Keys == s.queues.infos.Keys
  {
    if !s.queues.infos[x].reachBranch then s
    else s.(queues := BranchReached(s.queues, s.pools, x, pastBranch, oracle.finishedStores), pools := s.pools.(newFully := false))
  }

  /** It may have passed a store. */
  ghost function Stored(s: Search, x: State, oracle: Oracle): (r: Search)
    requires x in s.queues.infos
    ensures r.queues.infos.Keys == s.queues.infos.Keys
  {
    if !s.queues.infos[x].reachStore then s
    else s.(queues := StoreReached(s.queues, x, s.fromStore, oracle), fromStore := 0)
  }

  /** There may be a new target. */
  ghost function Targeted(s: Search, x: State, oracle: Oracle): (r: Search)
    requires x in s.queues.infos
    ensures r.queues.infos.Keys == s.queues.infos.Keys
  {
    if s.pools.targets == [] || !s.pools.newPartly then s
    else s.(queues := Aimed(s.queues, x, s.pools.targets[|s.pools.targets| - 1], oracle), pools := s.pools.(newPartly := false))
  }

  /** What happens to the current state before states are added and removed. */
  ghost function CurrentUpdated(s: Search, x: State, added: bool, pastBranch: Branch, oracle: Oracle): (r: Search)
    requires x in s.queues.infos
    ensures r.queues.infos.Keys == s.queues.infos.Keys
  {
    var rotated := if added then s.(queues := Rotated(s.queues, x)) else s;
    Targeted(Stored(Branched(rotated, x, pastBranch, oracle), x, oracle), x, oracle)
  }

  ghost function Updated(s: Search, current: Option<State>, added: seq<State>, removed: seq<State>, pastBranch: Branch, limit: nat, oracle: Oracle): (r: Search)
    requires current.Some? ==> current.value in s.queues.infos
    ensures r.queues.infos.Keys == s.queues.infos.Keys
  {
    var s1 := if current.Some? && current.value !in removed then CurrentUpdated(s, current.value, added != [], pastBranch, oracle) else s;
    var s2 := if current.Some? && s1.refresh then Refreshed(s1, current.value, limit, oracle) else s1;
    s2.(queues := Left(Joined(s2.queues, current.Some?, added, oracle), removed))
  }

  lemma CurrentUpdatedKept(s: Search, x: State, added: bool, pastBranch: Branch, oracle: Oracle)
    requires Sound(s.queues) && x in s.queues.infos && (if s.queues.branchStates == [] then x in s.queues.states else x in s.queues.branchStates)
    ensures Kept(s.queues, CurrentUpdated(s, x, added, pastBranch, oracle).queues)
  {
    hide Rotated, Branched, Stored, Targeted, Sound, Kept;
    var rotated := if added then s.(queues := Rotated(s.queues, x)) else s;
    KeptSelf(s.queues);
    RotatedKept(s.queues, x);
    SoundKept(s.queues, rotated.queues);
    StagesKept(rotated, x, pastBranch, oracle);
    KeptTwice(s.queues, rotated.queues, CurrentUpdated(s, x, added, pastBranch, oracle).queues);
  }

  lemma StagesKept(s: Search, x: State, pastBranch: Branch, oracle: Oracle)
    requires Sound(s.queues) && x in s.queues.infos
    ensures Kept(s.queues, Targeted(Stored(Branched(s, x, pastBranch, oracle), x, oracle), x, oracle).queues)
  {
    hide BranchReached, StoreReached, Aimed, Sound, Kept;
    KeptSelf(s.queues);
    BranchReachedKept(s.queues, s.pools, x, pastBranch, oracle.finishedStores);
    var branched := Branched(s, x, pastBranch, oracle);
    SoundKept(s.queues, branched.queues);
    KeptSelf(branched.queues);
    StoreReachedKept(branched.queues, x, s.fromStore, oracle);
    var stored := Stored(branched, x, oracle);
    SoundKept(branched.queues, stored.queues);
    KeptTwice(s.queues, branched.queues, stored.queues);
    if stored.pools.targets != [] && stored.pools.newPartly {
      AimedKept(stored.queues, x, stored.pools.targets[|stored.pools.targets| - 1], oracle);
      KeptTwice(s.queues, stored.queues, Targeted(stored, x, oracle).queues);
    }
  }

  lemma KeptTwice(q: Queues, r: Queues, t: Queues)
    requires Kept(q, r) && Kept(r, t)
    ensures Kept(q, t)
  {
  }

  lemma RotatedSound(q: Queues, x: State)
    requires Sound(q) && (if q.branchStates == [] then x in q.states else x in q.branchStates)
    ensures Sound(Rotated(q, x))
  {
    RotatedKept(q, x);
    SoundKept(q, Rotated(q, x));
  }

  lemma BranchReachedSound(q: Queues, p: Pools, current: State, pastBranch: Branch, gone: Branch -> set<Store>)
    requires Sound(q) && current in q.infos
    ensures Sound(BranchReached(q, p, current, pastBranch, gone))
    ensures BranchReached(q, p, current, pastBranch, gone).infos[current].reachStore == q.infos[current].reachStore
  {
    hide BranchReached;
    BranchReachedKept(q, p, current, pastBranch, gone);
    SoundKept(q, BranchReached(q, p, current, pastBranch, gone));
  }

  lemma StoreReachedSound(q: Queues, current: State, fromStore: nat, oracle: Oracle)
    requires Sound(q) && current in q.infos
    ensures Sound(StoreReached(q, current, fromStore, oracle))
  {
    StoreReachedKept(q, current, fromStore, oracle);
    SoundKept(q, StoreReached(q, current, fromStore, oracle));
  }

  /** Conservation: afterwards the queues hold, each once, the states they held and the added ones, without the
      removed ones. */
  lemma UpdatedConserves(s: Search, current: Option<State>, added: seq<State>, removed: seq<State>, pastBranch: Branch, limit: nat, oracle: Oracle)
    requires Sound(s.queues) && (current.Some? ==> current.value in s.queues.infos)
    requires current.Some? ==> (if s.queues.branchStates == [] then current.value in s.queues.states else current.value in s.queues.branchStates)
    requires Distinct(added) && Distinct(removed) && forall x | x in added :: x in s.queues.infos && x !in Everyone(s.queues)
    ensures var r := Updated(s, current, added, removed, pastBranch, limit, oracle).queues;
      Sound(r) && Everyone(r) == Everyone(s.queues) + multiset(added) - multiset(removed)
  {
    hide CurrentUpdated, Refreshed, Sound, Everyone, Distinct, Joined, Left, Kept;
    var s1 := if current.Some? && current.value !in removed then CurrentUpdated(s, current.value, added != [], pastBranch, oracle) else s;
    KeptSelf(s.queues);
    if current.Some? {
      CurrentUpdatedKept(s, current.value, added != [], pastBranch, oracle);
    }
    SoundKept(s.queues, s1.queues);
    var s2 := if current.Some? && s1.refresh then Refreshed(s1, current.value, limit, oracle) else s1;
    KeptSelf(s1.queues);
    if current.Some? {
      RefreshedKept(s1, current.value, limit, oracle);
    }
    SoundKept(s1.queues, s2.queues);
    KeptMeans(s.queues, s1.queues);
    KeptMeans(s1.queues, s2.queues);
    ChangedConserves(s2.queues, current.Some?, added, removed, oracle);
  }

  /** The same, state by state. */
  lemma UpdatedMembers(s: Search, current: Option<State>, added: seq<State>, removed: seq<State>, pastBranch: Branch, limit: nat, oracle: Oracle)
    requires Sound(s.queues) && (current.Some? ==> current == FirstOf(s.queues) && current.value in s.queues.infos)
    requires Distinct(added) && Distinct(removed) && forall x | x in added :: x in s.queues.infos && x !in Everyone(s.queues)
    ensures var q, r := s.queues, Updated(s, current, added, removed, pastBranch, limit, oracle).queues;
      && Sound(r) && Everyone(r) == Everyone(q) + multiset(added) - multiset(removed)
      && (forall x :: x in r.states || x in r.branchStates <==> (x in q.states || x in q.branchStates || x in added) && x !in removed)
      && StatesOf(Everyone(r)) == StatesOf(Everyone(q)) + (set x | x in added) - (set x | x in removed)
  {
    FirstPlace(s.queues);
    hide Updated, Distinct, Everyone, FirstOf, Once;
    UpdatedConserves(s, current, added, removed, pastBranch, limit, oracle);
    Rest(Everyone(s.queues), added, removed);
    Members(s.queues);
    Members(Updated(s, current, added, removed, pastBranch, limit, oracle).queues);
  }

  lemma Members(q: Queues)
    ensures forall x :: x in q.states || x in q.branchStates <==> x in Everyone(q)
  {
  }

  lemma KeptSelf(q: Queues)
    ensures Kept(q, q)
  {
  }

  lemma KeptMeans(q: Queues, r: Queues)
    requires Kept(q, r)
    ensures Everyone(r) == Everyone(q) && r.infos.Keys == q.infos.Keys
  {
  }

  lemma ChangedConserves(q: Queues, hasCurrent: bool, added: seq<State>, removed: seq<State>, oracle: Oracle)
    requires Sound(q) && Distinct(added) && Distinct(removed) && forall x | x in added :: x in q.infos && x !in Everyone(q)
    ensures var r := Left(Joined(q, hasCurrent, added, oracle), removed);
      Sound(r) && Everyone(r) == Everyone(q) + multiset(added) - multiset(removed)
  {
    hide Distinct, Joined, Everyone;
    var j := Joined(q, hasCurrent, added, oracle);
    JoinedEveryone(q, hasCurrent, added, oracle);
    Rest(Everyone(q), added, removed);
    LeftEveryone(j, removed);
  }

  lemma LeftEveryone(q: Queues, removed: seq<State>)
    requires Once(Everyone(q)) && Distinct(removed)
    ensures Everyone(Left(q, removed)) == Everyone(q) - multiset(removed)
  {
    DistinctOnce(removed);
    Staying(q.states, removed);
    Staying(q.branchStates, removed);
    forall x ensures Everyone(Left(q, removed))[x] == (Everyone(q) - multiset(removed))[x] {
      assert x in removed <==> x in multiset(removed);
    }
  }

  lemma {:induction false} Staying(s: seq<State>, removed: seq<State>)
    ensures forall x :: multiset(Those(s, Gone(removed)))[x] == if x in removed then 0 else multiset(s)[x]
  {
    if s != [] {
      var n := |s| - 1;
      assert s == s[..n] + [s[n]];
      Staying(s[..n], removed);
    }
  }

  lemma NoneGone(s: seq<State>)
    ensures Those(s, Gone([])) == s
  {
    ThoseAll(s, Gone([]));
  }

  lemma {:induction false} GoneNext(s: seq<State>, removed: seq<State>, k: nat)
    requires k < |removed|
    ensures Without(Those(s, Gone(removed[..k])), removed[k]) == Those(s, Gone(removed[..k + 1]))
  {
    GoneAt(removed, k);
    hide Gone;
    if s != [] {
      var n := |s| - 1;
      var rest := Those(s[..n], Gone(removed[..k]));
      GoneNext(s[..n], removed, k);
      ThoseApart(rest, s[n], Unlike(removed[k]));
      assert rest + [] == rest;
    }
  }

  lemma GoneAt(removed: seq<State>, k: nat)
    requires k < |removed|
    ensures forall x: nat :: Gone(removed[..k + 1])(x) <==> Gone(removed[..k])(x) && x != removed[k]
  {
    assert removed[..k + 1] == removed[..k] + [removed[k]];
  }

  lemma ThoseApart(s: seq<nat>, x: nat, p: nat -> bool)
    ensures Those(s + [x], p) == Those(s, p) + (if p(x) then [x] else [])
  {
    assert (s + [x])[..|s|] == s;
  }

  lemma JoinedSound(q: Queues, hasCurrent: bool, added: seq<State>, oracle: Oracle)
    requires Sound(q) && Distinct(added) && forall x | x in added :: x in q.infos && x !in Everyone(q)
    ensures Sound(Joined(q, hasCurrent, added, oracle))
  {
    hide Joined, Everyone, Distinct;
    JoinedEveryone(q, hasCurrent, added, oracle);
    Rest(Everyone(q), added, []);
  }

  lemma PrefixMultiset(s: seq<State>, k: nat)
    requires k < |s|
    ensures multiset(s[..k + 1]) == multiset(s[..k]) + multiset{s[k]}
  {
    assert s[..k + 1] == s[..k] + [s[k]];
  }

  lemma DistinctOnce(s: seq<State>)
    requires Distinct(s)
    ensures Once(multiset(s))
    decreases |s|
  {
    if s != [] {
      var n := |s| - 1;
      DistinctOnce(s[..n]);
      PrefixMultiset(s, n);
      assert s[..n + 1] == s;
      assert s[n] !in s[..n];
    }
  }

  /** What is left after new states come and others go. */
  lemma Rest(queued: multiset<State>, added: seq<State>, removed: seq<State>)
    requires Once(queued) && Distinct(added) && Distinct(removed) && forall x | x in added :: x !in queued
    ensures Once(queued + multiset(added)) && Once(queued + multiset(added) - multiset(removed))
    ensures forall x :: x in queued + multiset(added) - multiset(removed) <==> (x in queued || x in added) && x !in removed
  {
    DistinctOnce(added);
    DistinctOnce(removed);
    var all := queued + multiset(added);
    assert Once(all);
    forall x ensures x in all - multiset(removed) <==> (x in queued || x in added) && x !in removed {
      assert x in added <==> x in multiset(added);
      assert x in removed <==> x in multiset(removed);
    }
  }

  // ---------------------------------------------------------------- runs

  /** The state selected: the first with a target branch, else the first of the others. */
  ghost function FirstOf(q: Queues): Option<State> {
    if q.branchStates != [] then Some(q.branchStates[0]) else if q.states != [] then Some(q.states[0]) else None
  }

  /** A branch that is covered in full leaves the other pools; the branch that waits since last takes the place of a
      target. */
  ghost function Finished(p: Pools, b: Branch): Pools {
    var q := p.(fully := p.fully + [b], newFully := true);
    if b !in p.targets then q.(partly := Without(p.partly, b))
    else if p.partly == [] then q.(targets := Without(p.targets, b))
    else q.(targets := Without(p.targets, b) + [p.partly[|p.partly| - 1]], partly := p.partly[..|p.partly| - 1], newPartly := true)
  }

  /** A concrete branch or switch is executed. */
  ghost function Executed(p: Pools, limit: nat, b: Branch, nowCovered: bool, admitted: bool): Pools {
    var q := p.(covered := if nowCovered then p.covered + {b} else p.covered);
    if b in q.covered then if b in p.fully then q else Finished(q, b)
    else if !admitted || b in p.targets || b in p.partly then q
    else if |p.targets| < limit then q.(targets := p.targets + [b], newPartly := true)
    else q.(partly := p.partly + [b])
  }

  /** A branch is executed; or the current state, whose info is now `info` with `fromStore` of its targets from a
      store just passed, led to the states added and removed. */
  datatype SearchStep =
    | BranchStep(b: Branch, nowCovered: bool, admitted: bool)
    | UpdateStep(info: StateInfo, fromStore: nat, added: seq<State>, known: Infos, removed: seq<State>, pastBranch: Branch, refresh: bool)

  predicate WFStep(step: SearchStep) {
    step.UpdateStep? ==>
      && Distinct(step.added) && Distinct(step.removed) && (forall x | x in step.added :: x in step.known)
      && (step.info.reachStore ==> !step.info.reachBranch && step.fromStore <= |step.info.branchInfos|)
  }

  /** The infos once the new states are known and the current one has been executed. */
  ghost function Learnt(infos: Infos, current: Option<State>, info: StateInfo, added: seq<State>, known: Infos): (r: Infos)
    ensures current.Some? ==> current.value in r
  {
    var all := infos + (map x | x in added && x in known :: known[x]);
    if current.Some? then all[current.value := info] else all
  }

  lemma LearntIs(infos: Infos, current: Option<State>, info: StateInfo, added: seq<State>, known: Infos)
    requires forall x | x in added :: x in known
    ensures var all := infos + map x | x in added :: known[x];
      Learnt(infos, current, info, added, known) == if current.Some? then all[current.value := info] else all
  {
    assert (map x | x in added :: known[x]) == (map x | x in added && x in known :: known[x]);
  }

  /** Learning adds no state to the queues. */
  lemma LearntSound(q: Queues, current: Option<State>, info: StateInfo, added: seq<State>, known: Infos)
    requires Sound(q) && current == FirstOf(q) && forall x | x in added :: x in known && x !in q.infos
    ensures var r := q.(infos := Learnt(q.infos, current, info, added, known));
      && Sound(r) && FirstOf(r) == current && Everyone(r) == Everyone(q)
      && r.infos.Keys == q.infos.Keys + (set x | x in added) && (current.Some? ==> r.infos[current.value] == info)
      && forall x | x in added :: x in r.infos && x !in Everyone(q)
  {
    Apart(q);
  }

  ghost function Continued(s: Search, step: SearchStep, limit: nat, oracle: Oracle): Search {
    match step
    case BranchStep(b, nowCovered, admitted) => s.(pools := Executed(s.pools, limit, b, nowCovered, admitted))
    case UpdateStep(info, fromStore, added, known, removed, pastBranch, refresh) =>
      if exists x | x in added :: x in s.queues.infos then s
      else
        var current := FirstOf(s.queues);
        var infos := Learnt(s.queues.infos, current, info, added, known);
        Updated(s.(queues := s.queues.(infos := infos), fromStore := fromStore, refresh := refresh && current.Some?), current, added, removed, pastBranch, limit, oracle)
  }

  lemma ContinuedUpdate(s: Search, step: SearchStep, limit: nat, oracle: Oracle)
    requires step.UpdateStep? && forall x | x in step.added :: x !in s.queues.infos
    ensures var current := FirstOf(s.queues);
      var infos := Learnt(s.queues.infos, current, step.info, step.added, step.known);
      Continued(s, step, limit, oracle) ==
      Updated(s.(queues := s.queues.(infos := infos), fromStore := step.fromStore, refresh := step.refresh && current.Some?), current, step.added, step.removed, step.pastBranch, limit, oracle)
  {
    hide Updated, Learnt, FirstOf;
  }

  ghost function ContinuedBy(s: Search, steps: seq<SearchStep>, limit: nat, oracle: Oracle): Search {
    if steps == [] then s else Continued(ContinuedBy(s, steps[..|steps| - 1], limit, oracle), steps[|steps| - 1], limit, oracle)
  }

  lemma FirstPlace(q: Queues)
    ensures FirstOf(q).Some? ==> var x := FirstOf(q).value; if q.branchStates == [] then x in q.states else x in q.branchStates
  {
  }

  // ---------------------------------------------------------------- what an update comes to

  /** No event for the current state, and no new target. */
  predicate Quiet(s: Search, current: State) {
    && current in s.queues.infos && !s.queues.infos[current].reachBranch && !s.queues.infos[current].reachStore
    && !(s.pools.targets != [] && s.pools.newPartly) && !s.refresh
  }

  /** The states that stay are the current one and those with another target, and the infos that go are those of
      the branch. */
  lemma BranchCoveredMeans(q: Queues, current: State, b: Branch, gone: set<Store>)
    requires Sound(q)
    ensures var r := BranchCovered(q, current, b, gone);
      && (forall x | x in q.branchStates :: r.infos[x].branchInfos == WithoutBranch(q.infos[x].branchInfos, b) && r.infos[x].storeValues == q.infos[x].storeValues - gone)
      && (forall x | x in q.infos && x !in q.branchStates :: r.infos[x] == q.infos[x])
      && (forall x :: x in r.branchStates <==> x in q.branchStates && (x == current || r.infos[x].branchInfos != []))
  {
    Apart(q);
    ThoseMembers(q.branchStates, Stays(q.infos, current, b));
  }

  lemma {:induction false} AnsweredMeans<T>(s: seq<T>, q: nat, ask: (nat, T) -> bool)
    ensures forall k | 0 <= k < |s| && ask(q + k, s[k]) :: s[k] in Answered(s, q, ask)
    ensures forall x | x in Answered(s, q, ask) :: exists k :: 0 <= k < |s| && s[k] == x && ask(q + k, x)
  {
    if s != [] {
      var n := |s| - 1;
      AnsweredMeans(s[..n], q, ask);
      assert forall k | 0 <= k < n :: s[..n][k] == s[k];
    }
  }

  lemma AnsweredFrom(infos: seq<BranchInfo>, n: nat, q: nat, ask: (nat, BranchInfo) -> bool)
    requires n <= |infos|
    ensures forall k | n <= k < |infos| && ask(q + k - n, infos[k]) :: infos[k] in Answered(infos[n..], q, ask)
    ensures forall x | x in Answered(infos[n..], q, ask) :: exists k :: n <= k < |infos| && infos[k] == x && ask(q + k - n, x)
  {
    var tail := infos[n..];
    AnsweredMeans(tail, q, ask);
    hide Answered;
    forall k | n <= k < |infos| && ask(q + k - n, infos[k]) ensures infos[k] in Answered(tail, q, ask) {
      assert tail[k - n] == infos[k] && ask(q + (k - n), tail[k - n]);
    }
    forall x | x in Answered(tail, q, ask) ensures exists k :: n <= k < |infos| && infos[k] == x && ask(q + k - n, x) {
      var j :| 0 <= j < |tail| && tail[j] == x && ask(q + j, x);
      assert infos[n + j] == x;
    }
  }

  /** The older infos stay; of the others exactly those with a new value do. */
  lemma StoreReachedMeans(q: Queues, current: State, fromStore: nat, oracle: Oracle)
    requires current in q.infos && fromStore <= |q.infos[current].branchInfos|
    ensures var before, r := q.infos[current].branchInfos, StoreReached(q, current, fromStore, oracle);
      var n, after := |before| - fromStore, r.infos[current].branchInfos;
      && n <= |after| && after[..n] == before[..n]
      && (forall k | n <= k < |before| && AskAbout(current, oracle)(q.queries + k - n, before[k]) :: before[k] in after[n..])
      && (forall x | x in after[n..] :: exists k :: n <= k < |before| && before[k] == x && AskAbout(current, oracle)(q.queries + k - n, x))
      && r.queries == q.queries + fromStore && !r.infos[current].reachStore
      && (forall x | x in q.infos && x != current :: r.infos[x] == q.infos[x])
  {
    hide Promoted, Answered, AskAbout;
    var before := q.infos[current].branchInfos;
    var n := |before| - fromStore;
    var newer := Answered(before[n..], q.queries, AskAbout(current, oracle));
    AnsweredFrom(before, n, q.queries, AskAbout(current, oracle));
    assert (before[..n] + newer)[n..] == newer;
  }

  /** A new state joins the branch queue exactly when it has a target or a store ahead, and there is a current
      state. */
  lemma JoinedMeans(q: Queues, hasCurrent: bool, added: seq<State>, oracle: Oracle, x: State)
    requires x in added && x in q.infos && x !in q.states && x !in q.branchStates
    ensures var r := Joined(q, hasCurrent, added, oracle);
      && (x in r.branchStates <==> hasCurrent && (q.infos[x].branchInfos != [] || oracle.coversStore(x)))
      && (x in r.states <==> x !in r.branchStates)
  {
    ThoseMembers(added, Joins(q.infos, hasCurrent, oracle));
    ThoseMembers(added, Not(Joins(q.infos, hasCurrent, oracle)));
  }

  /** A branch the current state reached is no longer aimed at. */
  lemma BranchedInfo(s: Search, x: State, pastBranch: Branch, oracle: Oracle)
    requires x in s.queues.infos
    ensures var p, info, after := s.pools, s.queues.infos[x], Branched(s, x, pastBranch, oracle).queues.infos[x];
      && !after.reachBranch && after.reachStore == info.reachStore
      && (!info.reachBranch ==> after == info)
      && (info.reachBranch && p.newFully && p.fully != [] ==>
        after.branchInfos == if x in s.queues.branchStates then WithoutBranch(info.branchInfos, p.fully[|p.fully| - 1]) else info.branchInfos)
      && (info.reachBranch && !(p.newFully && p.fully != []) ==> after.branchInfos == WithoutBranch(info.branchInfos, pastBranch))
  {
    hide WithoutBranch, Retired, Those;
  }

  lemma StoredInfo(s: Search, x: State, oracle: Oracle)
    requires x in s.queues.infos
    ensures var info, after := s.queues.infos[x], Stored(s, x, oracle).queues.infos[x];
      !after.reachStore && after.reachBranch == info.reachBranch && (!info.reachStore ==> after == info)
  {
    hide Promoted, Answered;
  }

  lemma TargetedInfo(s: Search, x: State, oracle: Oracle)
    requires Sound(s.queues) && x in s.queues.infos && (x in s.queues.states || x in s.queues.branchStates)
    ensures var r := Targeted(s, x, oracle).queues;
      && r.infos[x].reachBranch == s.queues.infos[x].reachBranch && r.infos[x].reachStore == s.queues.infos[x].reachStore
      && (if s.pools.targets != [] && s.pools.newPartly then x in r.branchStates && x !in r.states else r == s.queues)
  {
    hide Aimed, Aims, Sound;
    if s.pools.targets != [] {
      AimedKept(s.queues, x, s.pools.targets[|s.pools.targets| - 1], oracle);
    }
  }

  /** The events of the current state are dealt with: its flags are cleared, a branch it reached is no longer aimed
      at, and with a new target it is in the branch queue. */
  lemma CurrentMeans(s: Search, x: State, added: bool, pastBranch: Branch, oracle: Oracle)
    requires Sound(s.queues) && x in s.queues.infos && (if s.queues.branchStates == [] then x in s.queues.states else x in s.queues.branchStates)
    ensures var p, info, r := s.pools, s.queues.infos[x], CurrentUpdated(s, x, added, pastBranch, oracle).queues;
      && !r.infos[x].reachBranch && !r.infos[x].reachStore
      && (p.targets != [] && p.newPartly ==> x in r.branchStates && x !in r.states)
      && (info.reachBranch && !info.reachStore && !(p.targets != [] && p.newPartly) && !(p.newFully && p.fully != []) ==>
        r.infos[x].branchInfos == WithoutBranch(info.branchInfos, pastBranch))
      && (info.reachBranch && !info.reachStore && !(p.targets != [] && p.newPartly) && p.newFully && p.fully != [] ==>
        r.infos[x].branchInfos == if x in s.queues.branchStates then WithoutBranch(info.branchInfos, p.fully[|p.fully| - 1]) else info.branchInfos)
  {
    var rotated := if added then s.(queues := Rotated(s.queues, x)) else s;
    assert Sound(rotated.queues) && rotated.queues.infos == s.queues.infos && (x in rotated.queues.states || x in rotated.queues.branchStates)
      && (x in rotated.queues.branchStates <==> x in s.queues.branchStates) by {
      hide Sound;
      RotatedSound(s.queues, x);
      RotatedPlace(s.queues, x);
    }
    hide Sound, Kept, WithoutBranch, Rotated, Branched, Stored, Targeted;
    var branched := Branched(rotated, x, pastBranch, oracle);
    var stored := Stored(branched, x, oracle);
    BranchedInfo(rotated, x, pastBranch, oracle);
    StoredInfo(branched, x, oracle);
    StoredSound(rotated, x, pastBranch, oracle);
    TargetedInfo(stored, x, oracle);
  }

  lemma StoredSound(s: Search, x: State, pastBranch: Branch, oracle: Oracle)
    requires Sound(s.queues) && x in s.queues.infos && (x in s.queues.states || x in s.queues.branchStates)
    ensures var r := Stored(Branched(s, x, pastBranch, oracle), x, oracle);
      && Sound(r.queues) && (x in r.queues.states || x in r.queues.branchStates)
      && r.pools.targets == s.pools.targets && r.pools.newPartly == s.pools.newPartly
  {
    hide BranchReached, StoreReached, Sound, Kept, Everyone;
    var branched := Branched(s, x, pastBranch, oracle);
    var stored := Stored(branched, x, oracle);
    KeptSelf(s.queues);
    BranchReachedKept(s.queues, s.pools, x, pastBranch, oracle.finishedStores);
    SoundKept(s.queues, branched.queues);
    KeptSelf(branched.queues);
    StoreReachedKept(branched.queues, x, s.fromStore, oracle);
    SoundKept(branched.queues, stored.queues);
    KeptMeans(s.queues, branched.queues);
    KeptMeans(branched.queues, stored.queues);
    Members(s.queues);
    Members(stored.queues);
  }

  lemma RotatedPlace(q: Queues, x: State)
    requires if q.branchStates == [] then x in q.states else x in q.branchStates
    ensures x in Rotated(q, x).branchStates <==> x in q.branchStates
    ensures x in Rotated(q, x).states || x in Rotated(q, x).branchStates
  {
  }

  /** Breadth first: the current state goes behind those of its queue, and the new states line up behind it. */
  lemma QuietUpdate(s: Search, current: State, added: seq<State>, pastBranch: Branch, limit: nat, oracle: Oracle)
    requires Quiet(s, current) && added != []
    requires forall x | x in added :: x in s.queues.infos
    ensures var q, r := s.queues, Updated(s, Some(current), added, [], pastBranch, limit, oracle).queues;
      && r.infos == q.infos
      && r.states == (if q.branchStates == [] then Without(q.states, current) + [current] else q.states)
        + Those(added, x => x in q.infos && q.infos[x].branchInfos == [] && !oracle.coversStore(x))
      && r.branchStates == (if q.branchStates == [] then [] else Without(q.branchStates, current) + [current])
        + Those(added, x => x in q.infos && (q.infos[x].branchInfos != [] || oracle.coversStore(x)))
  {
    QuietRotates(s, current, added, pastBranch, limit, oracle);
    hide Updated, Those;
    var q := s.queues;
    var joins := Joins(q.infos, true, oracle);
    SameThose(added, joins, x => x in q.infos && (q.infos[x].branchInfos != [] || oracle.coversStore(x)));
    SameThose(added, Not(joins), x => x in q.infos && q.infos[x].branchInfos == [] && !oracle.coversStore(x));
  }

  lemma QuietRotates(s: Search, current: State, added: seq<State>, pastBranch: Branch, limit: nat, oracle: Oracle)
    requires Quiet(s, current) && added != []
    ensures Updated(s, Some(current), added, [], pastBranch, limit, oracle).queues == Joined(Rotated(s.queues, current), true, added, oracle)
  {
    hide Joined, Rotated, BranchReached, StoreReached, Aimed;
    var j := Joined(Rotated(s.queues, current), true, added, oracle);
    ThoseAll(j.states, Gone([]));
    ThoseAll(j.branchStates, Gone([]));
  }

  lemma {:induction false} SameThose(s: seq<nat>, p: nat -> bool, p': nat -> bool)
    requires forall x | x in s :: p(x) == p'(x)
    ensures Those(s, p) == Those(s, p')
  {
    if s != [] {
      var n := |s| - 1;
      assert s == s[..n] + [s[n]];
      SameThose(s[..n], p, p');
    }
  }
}
