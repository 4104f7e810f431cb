/** How `ExecutionState::merge` combines the constraints of two states. */
module ConstraintMerging {
  import opened Expressions
  import opened SmartConstructors
  import opened Constraints
  import opened Solvers
  import opened SwitchConditions

  /** The constraints split as the merge splits them: those in both sets, and each side's own. */
  datatype Split = Split(common: seq<Expr>, aSuffix: seq<Expr>, bSuffix: seq<Expr>)

  ghost predicate IsSplit(s: Split, ca: seq<Expr>, cb: seq<Expr>) {
    && (forall e :: e in s.common <==> e in ca && e in cb)
    && (forall e :: e in s.aSuffix <==> e in ca && e !in cb)
    && (forall e :: e in s.bSuffix <==> e in cb && e !in ca)
  }

  /** The members of `cs` that are (or are not) in `ds`, each once. */
  method Select(cs: seq<Expr>, ds: seq<Expr>, member: bool) returns (r: seq<Expr>)
    ensures forall e :: e in r <==> e in cs && (e in ds <==> member)
    ensures forall i, j | 0 <= i < j < |r| :: r[i] != r[j]
  {
    r := [];
    for i := 0 to |cs|
      invariant forall e :: e in r <==> e in cs[..i] && (e in ds <==> member)
      invariant forall i, j | 0 <= i < j < |r| :: r[i] != r[j]
    {
      assert cs[..i + 1] == cs[..i] + [cs[i]];
      if (cs[i] in ds) == member && cs[i] !in r {
        r := r + [cs[i]];
      }
    }
    assert cs[..|cs|] == cs;
  }

  /** Membership is all that matters for satisfaction. */
  lemma SatMembers(cs: seq<Expr>, a: Assignment)
    requires Conditions(cs)
    ensures Sat(cs, a) <==> forall e | e in cs :: WF(e) && Holds(e, a)
  {
    hide Eval, Width;
    if Sat(cs, a) {
      forall e | e in cs ensures WF(e) && Holds(e, a) {
        var i :| 0 <= i < |cs| && cs[i] == e;
      }
    }
    if forall e | e in cs :: WF(e) && Holds(e, a) {
      forall i | 0 <= i < |cs| ensures Holds(cs[i], a) {
        assert cs[i] in cs;
      }
    }
  }

  lemma MembersAreConditions(cs: seq<Expr>, ds: seq<Expr>)
    requires Conditions(cs) && forall e | e in ds :: e in cs
    ensures Conditions(ds)
  {
    hide WF, Width;
    forall i | 0 <= i < |ds| ensures OfWidth(ds[i], BOOL) {
      assert ds[i] in ds;
      var j :| 0 <= j < |cs| && cs[j] == ds[i];
    }
  }

  lemma SplitSat(s: Split, ca: seq<Expr>, cb: seq<Expr>)
    requires Conditions(ca) && Conditions(cb) && IsSplit(s, ca, cb)
    ensures Conditions(s.common) && Conditions(s.aSuffix) && Conditions(s.bSuffix)
    ensures forall a: Assignment :: Sat(ca, a) <==> Sat(s.common, a) && Sat(s.aSuffix, a)
    ensures forall a: Assignment :: Sat(cb, a) <==> Sat(s.common, a) && Sat(s.bSuffix, a)
  {
    hide Eval, WF, Width, Sat, Holds;
    MembersAreConditions(ca, s.common);
    MembersAreConditions(ca, s.aSuffix);
    MembersAreConditions(cb, s.bSuffix);
    forall a: Assignment
      ensures Sat(ca, a) <==> Sat(s.common, a) && Sat(s.aSuffix, a)
      ensures Sat(cb, a) <==> Sat(s.common, a) && Sat(s.bSuffix, a)
    {
      SatMembers(ca, a);
      SatMembers(cb, a);
      SatMembers(s.common, a);
      SatMembers(s.aSuffix, a);
      SatMembers(s.bSuffix, a);
    }
  }

  /** The conjunction of a suffix, built left to right from true. */
  method Conjunction(cs: seq<Expr>) returns (e: Expr)
    requires Conditions(cs)
    ensures OfWidth(e, BOOL) && forall a: Assignment :: Holds(e, a) <==> Sat(cs, a)
  {
    hide Eval, WF, Width, AndCreate, OrCreate, Holds, Sat;
    BoolConstants();
    e := Expressions.True;
    SatSplit(cs, 0);
    for i := 0 to |cs|
      invariant OfWidth(e, BOOL) && Conditions(cs[..i])
      invariant forall a: Assignment :: Holds(e, a) <==> Sat(cs[..i], a)
    {
      SatSplit(cs, i);
      OrConditions(e, cs[i]);
      e := AndCreate(e, cs[i]);
    }
    assert cs[..|cs|] == cs;
  }

  /** The merged constraint set: the common constraints and the disjunction of the suffixes. */
  method MergeConstraints(ca: seq<Expr>, cb: seq<Expr>) returns (ok: bool, inA: Expr, inB: Expr, merged: seq<Expr>)
    requires Conditions(ca) && Conditions(cb)
    ensures OfWidth(inA, BOOL) && OfWidth(inB, BOOL) && Conditions(merged)
    ensures Satisfiable(ca) || Satisfiable(cb) ==> ok
    ensures ok ==> forall a: Assignment :: Sat(merged, a) <==> Sat(ca, a) || Sat(cb, a)
    ensures forall a: Assignment | Sat(ca, a) :: Holds(inA, a)
    ensures forall a: Assignment | Sat(cb, a) :: Holds(inB, a)
    ensures forall a: Assignment | Sat(ca, a) || Sat(cb, a) :: (Holds(inA, a) ==> Sat(ca, a)) && (Holds(inB, a) ==> Sat(cb, a))
  {
    hide Eval, WF, Width, AndCreate, OrCreate, Holds, Sat;
    var common := Select(ca, cb, true);
    var aSuffix := Select(ca, cb, false);
    var bSuffix := Select(cb, ca, false);
    SplitSat(Split(common, aSuffix, bSuffix), ca, cb);
    inA := Conjunction(aSuffix);
    inB := Conjunction(bSuffix);
    merged := [];
    var m := new ConstraintManager([]);
    SatSplit(common, 0);
    ok := true;
    var i := 0;
    while i < |common| && ok
      invariant 0 <= i <= |common| && Conditions(m.constraints) && Conditions(common[..i])
      invariant ok ==> forall a: Assignment :: Sat(m.constraints, a) <==> Sat(common[..i], a)
      invariant !ok ==> forall a: Assignment :: !Sat(common, a)
    {
      SatSplit(common, i);
      ok := m.AddConstraint(common[i]);
      i := i + 1;
    }
    if ok {
      assert common[..i] == common;
      OrConditions(inA, inB);
      ok := m.AddConstraint(OrCreate(inA, inB));
      merged := m.constraints;
    }
  }
}
