/** The branch conditions the executor builds for a switch on a symbolic value. */
module SwitchConditions {
  import opened BitVector
  import opened Expressions
  import opened SmartConstructors
  import opened ConstructorSoundness
  import opened Constraints
  import opened Solvers

  /** A case value and its successor block. */
  datatype Case = Case(value: Expr, target: nat)

  /** Distinct constants of the switch's width, as LLVM demands. */
  predicate WFCases(cases: seq<Case>, w: nat) {
    && (forall i | 0 <= i < |cases| :: cases[i].value.Constant? && OfWidth(cases[i].value, w))
    && (forall i, j | 0 <= i < j < |cases| :: cases[i].value.value != cases[j].value.value)
  }

  /** Where a concrete switch on `v` goes. */
  function Destination(cases: seq<Case>, defaultDest: nat, v: nat): nat
    requires forall i | 0 <= i < |cases| :: cases[i].value.Constant?
  {
    if cases == [] then defaultDest
    else if cases[0].value.value == v then cases[0].target
    else Destination(cases[1..], defaultDest, v)
  }

  lemma {:induction false} DestinationOfCase(cases: seq<Case>, w: nat, defaultDest: nat, i: nat)
    requires WFCases(cases, w) && i < |cases|
    ensures Destination(cases, defaultDest, cases[i].value.value) == cases[i].target
  {
    hide OfWidth;
    if i > 0 {
      DestinationOfCase(cases[1..], w, defaultDest, i - 1);
    }
  }

  lemma {:induction false} DestinationOtherwise(cases: seq<Case>, defaultDest: nat, v: nat)
    requires forall i | 0 <= i < |cases| :: cases[i].value.Constant?
    requires forall i | 0 <= i < |cases| && cases[i].target != defaultDest :: cases[i].value.value != v
    ensures Destination(cases, defaultDest, v) == defaultDest
  {
    if cases != [] {
      DestinationOtherwise(cases[1..], defaultDest, v);
    }
  }

  /** `a` takes case `i`. */
  ghost predicate Takes(cond: Expr, c: Case, a: Assignment)
    requires WF(cond) && c.value.Constant?
  {
    Eval(cond, a) == c.value.value
  }

  lemma MatchSound(cond: Expr, c: Case)
    requires WF(cond) && c.value.Constant? && OfWidth(c.value, Width(cond))
    ensures forall a: Assignment :: Holds(EqCreate(cond, c.value), a) <==> Takes(cond, c, a)
  {
    hide Eval, EqCreate;
    forall a: Assignment ensures Holds(EqCreate(cond, c.value), a) <==> Takes(cond, c, a) {
      EqSound(cond, c.value, a);
      ConstantNode(c.value, a);
    }
  }

  lemma OrConditions(l: Expr, r: Expr)
    requires OfWidth(l, BOOL) && OfWidth(r, BOOL)
    ensures forall a: Assignment :: Holds(OrCreate(l, r), a) <==> Holds(l, a) || Holds(r, a)
    ensures forall a: Assignment :: Holds(AndCreate(l, r), a) <==> Holds(l, a) && Holds(r, a)
  {
    hide Eval, OrCreate, AndCreate;
    forall a: Assignment
      ensures Holds(OrCreate(l, r), a) <==> Holds(l, a) || Holds(r, a)
      ensures Holds(AndCreate(l, r), a) <==> Holds(l, a) && Holds(r, a)
    {
      Connectives(l, r, a);
    }
  }

  lemma BoolConstants()
    ensures OfWidth(Expressions.True, BOOL) && OfWidth(Expressions.False, BOOL)
    ensures forall a: Assignment :: Holds(Expressions.True, a) && !Holds(Expressions.False, a)
  {
    Pow2Byte();
  }

  /** The conditions partition the solutions of `cs` by where the switch sends them. */
  ghost predicate Dispatches(cs: seq<Expr>, cond: Expr, cases: seq<Case>, defaultDest: nat, conditions: seq<Expr>, targets: seq<nat>)
    requires Conditions(cs) && WF(cond) && WFCases(cases, Width(cond))
  {
    && |conditions| == |targets| && Conditions(conditions)
    && (forall i, j | 0 <= i < j < |targets| :: targets[i] != targets[j])
    && (forall i, a: Assignment | 0 <= i < |conditions| && Holds(conditions[i], a) ::
          targets[i] == Destination(cases, defaultDest, Eval(cond, a)))
    && (forall a: Assignment | Sat(cs, a) :: exists i | 0 <= i < |conditions| :: Holds(conditions[i], a))
    && (forall i | 0 <= i < |conditions| :: May(cs, conditions[i]))
  }

  // ---------------------------------------------------------------- the loop over the cases

  /** The condition collected for block `b` is possible, and only inputs that go to `b` satisfy it. */
  ghost predicate TargetOk(cs: seq<Expr>, cond: Expr, cases: seq<Case>, defaultDest: nat, b: nat, e: Expr)
    requires Conditions(cs) && WF(cond) && WFCases(cases, Width(cond))
    ensures TargetOk(cs, cond, cases, defaultDest, b, e) ==> OfWidth(e, BOOL)
  {
    OfWidth(e, BOOL) && May(cs, e) &&
    forall a: Assignment | Holds(e, a) :: Destination(cases, defaultDest, Eval(cond, a)) == b
  }

  /** The default condition after `n` cases excludes exactly the cases that leave for another block. */
  ghost predicate DefaultOk(cond: Expr, cases: seq<Case>, n: nat, defaultDest: nat, e: Expr)
    requires WF(cond) && n <= |cases| && WFCases(cases, Width(cond))
    ensures DefaultOk(cond, cases, n, defaultDest, e) ==> OfWidth(e, BOOL)
  {
    OfWidth(e, BOOL) &&
    forall a: Assignment :: Holds(e, a) <==>
      forall j | 0 <= j < n && cases[j].target != defaultDest :: !Takes(cond, cases[j], a)
  }

  predicate AllConditions(targets: map<nat, Expr>) {
    forall b | b in targets :: OfWidth(targets[b], BOOL)
  }

  /** Every block's condition is in order. */
  ghost predicate TargetsOk(cs: seq<Expr>, cond: Expr, cases: seq<Case>, defaultDest: nat, targets: map<nat, Expr>)
    requires Conditions(cs) && WF(cond) && WFCases(cases, Width(cond))
    ensures TargetsOk(cs, cond, cases, defaultDest, targets) ==> AllConditions(targets)
  {
    forall b | b in targets :: TargetOk(cs, cond, cases, defaultDest, b, targets[b])
  }

  /** Solutions that take one of the first `n` cases satisfy the condition of its block. */
  ghost predicate Covered(cs: seq<Expr>, cond: Expr, cases: seq<Case>, n: nat, defaultDest: nat, targets: map<nat, Expr>)
    requires Conditions(cs) && WF(cond) && n <= |cases| && WFCases(cases, Width(cond)) && AllConditions(targets)
  {
    forall j, a: Assignment | 0 <= j < n && cases[j].target != defaultDest && Sat(cs, a) && Takes(cond, cases[j], a) ::
      cases[j].target in targets && Holds(targets[cases[j].target], a)
  }

  /** `order` lists the blocks of `targets` once each. */
  ghost predicate Lists(order: seq<nat>, targets: map<nat, Expr>) {
    && (forall b :: b in targets <==> b in order)
    && (forall j, k | 0 <= j < k < |order| :: order[j] != order[k])
  }

  lemma DefaultStep(cond: Expr, cases: seq<Case>, n: nat, defaultDest: nat, e: Expr)
    requires WF(cond) && n < |cases| && WFCases(cases, Width(cond)) && DefaultOk(cond, cases, n, defaultDest, e)
    ensures cases[n].target == defaultDest ==> DefaultOk(cond, cases, n + 1, defaultDest, e)
    ensures cases[n].target != defaultDest ==>
              DefaultOk(cond, cases, n + 1, defaultDest, AndCreate(e, IsZero(EqCreate(cond, cases[n].value))))
  {
    hide Eval, EqCreate, AndCreate, OrCreate, IsZero, Width;
    var m := EqCreate(cond, cases[n].value);
    MatchSound(cond, cases[n]);
    Negations(m);
    OrConditions(e, IsZero(m));
  }

  /** The condition of a block with one more case in it. */
  function Joined(cond: Expr, c: Case, targets: map<nat, Expr>): (e: Expr)
    requires WF(cond) && c.value.Constant? && OfWidth(c.value, Width(cond)) && AllConditions(targets)
    ensures OfWidth(e, BOOL)
  {
    BoolConstants();
    OrCreate(EqCreate(cond, c.value), if c.target in targets then targets[c.target] else Expressions.False)
  }

  lemma JoinedHolds(cond: Expr, c: Case, targets: map<nat, Expr>)
    requires WF(cond) && c.value.Constant? && OfWidth(c.value, Width(cond)) && AllConditions(targets)
    ensures forall a: Assignment :: Holds(Joined(cond, c, targets), a) <==>
              Takes(cond, c, a) || (c.target in targets && Holds(targets[c.target], a))
  {
    hide Eval, EqCreate, OrCreate, WF, Width, Takes, Holds;
    BoolConstants();
    MatchSound(cond, c);
    OrConditions(EqCreate(cond, c.value), if c.target in targets then targets[c.target] else Expressions.False);
  }

  /** A possible case joins the condition of its block. */
  lemma TargetStep(cs: seq<Expr>, cond: Expr, cases: seq<Case>, n: nat, defaultDest: nat, targets: map<nat, Expr>)
    requires Conditions(cs) && WF(cond) && n < |cases| && WFCases(cases, Width(cond))
    requires TargetsOk(cs, cond, cases, defaultDest, targets) && May(cs, EqCreate(cond, cases[n].value))
    ensures TargetOk(cs, cond, cases, defaultDest, cases[n].target, Joined(cond, cases[n], targets))
  {
    hide Eval, EqCreate, WF, Width, Holds, Joined, Destination, Sat;
    var c := cases[n];
    var e := Joined(cond, c, targets);
    JoinedHolds(cond, c, targets);
    MatchSound(cond, c);
    var a: Assignment :| Sat(cs, a) && Holds(EqCreate(cond, c.value), a);
    assert Takes(cond, c, a) && Holds(e, a);
    DestinationOfCase(cases, Width(cond), defaultDest, n);
    if c.target in targets {
      assert TargetOk(cs, cond, cases, defaultDest, c.target, targets[c.target]);
    }
  }

  lemma CoverStep(cs: seq<Expr>, cond: Expr, cases: seq<Case>, n: nat, defaultDest: nat, targets: map<nat, Expr>)
    requires Conditions(cs) && WF(cond) && n < |cases| && WFCases(cases, Width(cond))
    requires AllConditions(targets) && Covered(cs, cond, cases, n, defaultDest, targets)
    ensures Covered(cs, cond, cases, n + 1, defaultDest, targets[cases[n].target := Joined(cond, cases[n], targets)])
  {
    hide Eval, WF, Width, Holds, Joined, Takes, Sat;
    JoinedHolds(cond, cases[n], targets);
  }

  /** A case that is not possible, or goes to the default block, changes nothing. */
  lemma SkipStep(cs: seq<Expr>, cond: Expr, cases: seq<Case>, n: nat, defaultDest: nat, targets: map<nat, Expr>)
    requires Conditions(cs) && WF(cond) && n < |cases| && WFCases(cases, Width(cond))
    requires AllConditions(targets) && Covered(cs, cond, cases, n, defaultDest, targets)
    requires cases[n].target == defaultDest || !May(cs, EqCreate(cond, cases[n].value))
    ensures Covered(cs, cond, cases, n + 1, defaultDest, targets)
  {
    hide Eval, EqCreate, WF, Width, Holds, Takes;
    MatchSound(cond, cases[n]);
  }

  /** Once all cases are in, the collected conditions dispatch. */
  lemma Collected(cs: seq<Expr>, cond: Expr, cases: seq<Case>, defaultDest: nat, targets: map<nat, Expr>, order: seq<nat>,
                  defaultValue: Expr)
    requires Conditions(cs) && WF(cond) && WFCases(cases, Width(cond))
    requires TargetsOk(cs, cond, cases, defaultDest, targets) && Lists(order, targets)
    requires DefaultOk(cond, cases, |cases|, defaultDest, defaultValue)
    requires defaultDest in targets ==> targets[defaultDest] == defaultValue
    requires defaultDest !in targets ==> !May(cs, defaultValue)
    requires Covered(cs, cond, cases, |cases|, defaultDest, targets)
    ensures Dispatches(cs, cond, cases, defaultDest, Picked(targets, order), order)
  {
    hide Eval, WF, Width, Holds, Sat, Destination, DefaultOk, Covered;
    var conditions := Picked(targets, order);
    forall i | 0 <= i < |order| ensures TargetOk(cs, cond, cases, defaultDest, order[i], conditions[i]) {
      assert order[i] in order;
    }
    forall a: Assignment | Sat(cs, a)
      ensures exists i | 0 <= i < |conditions| :: Holds(conditions[i], a)
    {
      var b := SomeTarget(cs, cond, cases, defaultDest, targets, defaultValue, a);
      var i :| 0 <= i < |order| && order[i] == b;
      assert Holds(conditions[i], a);
    }
  }

  /** A block whose condition the solution satisfies. */
  lemma SomeTarget(cs: seq<Expr>, cond: Expr, cases: seq<Case>, defaultDest: nat, targets: map<nat, Expr>, defaultValue: Expr, a: Assignment) returns (b: nat)
    requires Conditions(cs) && WF(cond) && WFCases(cases, Width(cond)) && AllConditions(targets)
    requires DefaultOk(cond, cases, |cases|, defaultDest, defaultValue)
    requires defaultDest in targets ==> targets[defaultDest] == defaultValue
    requires defaultDest !in targets ==> !May(cs, defaultValue)
    requires Covered(cs, cond, cases, |cases|, defaultDest, targets) && Sat(cs, a)
    ensures b in targets && Holds(targets[b], a)
  {
    hide Eval, WF, Width, Holds, Sat, Takes;
    b := if j :| 0 <= j < |cases| && cases[j].target != defaultDest && Takes(cond, cases[j], a) then cases[j].target else defaultDest;
  }

  /** The conditions of the listed blocks. */
  function Picked(targets: map<nat, Expr>, order: seq<nat>): (conditions: seq<Expr>)
    requires forall b | b in order :: b in targets
    ensures |conditions| == |order| && forall i | 0 <= i < |order| :: conditions[i] == targets[order[i]]
  {
    seq(|order|, i requires 0 <= i < |order| => targets[order[i]])
  }

  /** A possible default joins the blocks. */
  lemma DefaultJoins(cs: seq<Expr>, cond: Expr, cases: seq<Case>, defaultDest: nat, e: Expr)
    requires Conditions(cs) && WF(cond) && WFCases(cases, Width(cond)) && DefaultOk(cond, cases, |cases|, defaultDest, e)
    requires May(cs, e)
    ensures TargetOk(cs, cond, cases, defaultDest, defaultDest, e)
  {
    hide Eval, WF, Width, Holds, Sat;
    forall a: Assignment | Holds(e, a) ensures Destination(cases, defaultDest, Eval(cond, a)) == defaultDest {
      DestinationOtherwise(cases, defaultDest, Eval(cond, a));
    }
  }

  /** A condition for the default block takes nothing away. */
  lemma StillCovered(cs: seq<Expr>, cond: Expr, cases: seq<Case>, defaultDest: nat, targets: map<nat, Expr>, e: Expr)
    requires Conditions(cs) && WF(cond) && WFCases(cases, Width(cond)) && AllConditions(targets) && OfWidth(e, BOOL)
    requires Covered(cs, cond, cases, |cases|, defaultDest, targets)
    ensures Covered(cs, cond, cases, |cases|, defaultDest, targets[defaultDest := e])
  {
    hide Eval, WF, Width, Holds, Sat, Takes;
  }

  /** The symbolic `Switch` case of the executor. `cases` is in the order of the case expressions. */
  method BuildConditions(cs: seq<Expr>, cond: Expr, cases: seq<Case>, defaultDest: nat, solver: Solver)
      returns (conditions: seq<Expr>, bbOrder: seq<nat>)
    requires Conditions(cs) && Satisfiable(cs) && solver.Correct() && WF(cond) && WFCases(cases, Width(cond))
    ensures Dispatches(cs, cond, cases, defaultDest, conditions, bbOrder)
  {
    hide Eval, WF, Width, EqCreate, Joined, AndCreate, IsZero, Solver.Correct, Solver.MayBeTrue, Dispatches, TargetOk, May;
    BoolConstants();
    bbOrder := [];
    var branchTargets: map<nat, Expr> := map[];
    var defaultValue := Expressions.True;
    for i := 0 to |cases|
      invariant defaultDest !in branchTargets && Lists(bbOrder, branchTargets)
      invariant TargetsOk(cs, cond, cases, defaultDest, branchTargets)
      invariant Covered(cs, cond, cases, i, defaultDest, branchTargets)
      invariant DefaultOk(cond, cases, i, defaultDest, defaultValue)
    {
      hide DefaultOk, Covered;
      var c := cases[i];
      var match_ := EqCreate(cond, c.value);
      DefaultStep(cond, cases, i, defaultDest, defaultValue);
      if c.target == defaultDest {
        SkipStep(cs, cond, cases, i, defaultDest, branchTargets);
      } else {
        defaultValue := AndCreate(defaultValue, IsZero(match_));
        solver.MayBeTrueCorrect(cs, match_);
        if solver.MayBeTrue(cs, match_) {
          TargetStep(cs, cond, cases, i, defaultDest, branchTargets);
          CoverStep(cs, cond, cases, i, defaultDest, branchTargets);
          if c.target !in branchTargets {
            bbOrder := bbOrder + [c.target];
          }
          branchTargets := branchTargets[c.target := Joined(cond, c, branchTargets)];
        } else {
          SkipStep(cs, cond, cases, i, defaultDest, branchTargets);
        }
      }
    }
    solver.MayBeTrueCorrect(cs, defaultValue);
    if solver.MayBeTrue(cs, defaultValue) {
      DefaultJoins(cs, cond, cases, defaultDest, defaultValue);
      StillCovered(cs, cond, cases, defaultDest, branchTargets, defaultValue);
      branchTargets := branchTargets[defaultDest := defaultValue];
      bbOrder := bbOrder + [defaultDest];
    }
    Collected(cs, cond, cases, defaultDest, branchTargets, bbOrder, defaultValue);
    conditions := Picked(branchTargets, bbOrder);
  }
}
