/** The constraint manager: simplification against known equalities, splitting of conjunctions, and
rewriting of the constraints already present when an equality with a constant arrives.
*/
module Constraints {
  import opened BitVector
  import opened Expressions
  import opened ConstructorSoundness
  import opened ExprVisitors

  /** A set of path constraints: well-formed one-bit expressions. */
  predicate Conditions(cs: seq<Expr>) {
    forall i | 0 <= i < |cs| :: OfWidth(cs[i], BOOL)
  }

  /** `a` satisfies every constraint. */
  predicate Sat(cs: seq<Expr>, a: Assignment)
    requires Conditions(cs)
  {
    forall i | 0 <= i < |cs| :: Holds(cs[i], a)
  }

  function TotalWeight(cs: seq<Expr>): nat {
    if cs == [] then 0 else TotalWeight(cs[..|cs| - 1]) + Weight(cs[|cs| - 1])
  }

  lemma {:induction false} TotalWeightAppend(cs: seq<Expr>, ds: seq<Expr>)
    ensures TotalWeight(cs + ds) == TotalWeight(cs) + TotalWeight(ds)
  {
    if ds == [] {
      assert cs + ds == cs;
    } else {
      var n := |ds| - 1;
      assert (cs + ds)[..|cs + ds| - 1] == cs + ds[..n];
      TotalWeightAppend(cs, ds[..n]);
    }
  }

  lemma TotalWeightPush(cs: seq<Expr>, e: Expr)
    ensures TotalWeight(cs + [e]) == TotalWeight(cs) + Weight(e)
  {
    assert (cs + [e])[..|cs|] == cs;
  }

  lemma SatAppend(cs: seq<Expr>, ds: seq<Expr>, a: Assignment)
    requires Conditions(cs) && Conditions(ds)
    ensures Conditions(cs + ds)
    ensures Sat(cs + ds, a) <==> Sat(cs, a) && Sat(ds, a)
  {
    hide WF, Width, Holds;
    if Sat(cs + ds, a) {
      forall i | 0 <= i < |cs|
        ensures Holds(cs[i], a)
      {
        assert Holds((cs + ds)[i], a);
      }
      forall i | 0 <= i < |ds|
        ensures Holds(ds[i], a)
      {
        assert Holds((cs + ds)[|cs| + i], a);
      }
    }
  }

  lemma SatPush(cs: seq<Expr>, e: Expr)
    requires Conditions(cs) && OfWidth(e, BOOL)
    ensures Conditions(cs + [e])
    ensures forall a: Assignment :: Sat(cs + [e], a) <==> Sat(cs, a) && Holds(e, a)
  {
    hide WF, Width, Holds;
    assert Conditions([e]);
    forall a: Assignment
      ensures Sat(cs + [e], a) <==> Sat(cs, a) && Holds(e, a)
    {
      SatAppend(cs, [e], a);
      assert Sat([e], a) <==> Holds([e][0], a);
    }
  }

  // ---------------------------------------------------------------- simplification

  /** The replacement a constraint contributes: `c == x` maps `x` to `c`, anything else maps the
      constraint to true. */
  function Replacement(c: Expr): (r: (Expr, Expr))
    requires OfWidth(c, BOOL)
    ensures WF(r.0) && r.1.Constant? && OfWidth(r.1, Width(r.0))
  {
    if c.Compare? && c.cop.Eq? && c.left.Constant? then (c.right, c.left)
    else
      assert WF(True) by { Pow2Byte(); }
      (c, True)
  }

  lemma ReplacementSound(c: Expr, a: Assignment)
    requires OfWidth(c, BOOL) && Holds(c, a)
    ensures Eval(Replacement(c).0, a) == Eval(Replacement(c).1, a)
  {
    hide Eval, EvalBinary, Pow2;
    if c.Compare? && c.cop.Eq? && c.left.Constant? {
      EqNode(c.left, c.right, a);
    } else {
      ConstantNode(True, a);
    }
  }

  /** `ConstraintManager::simplifyExpr`: the first constraint about an expression wins. */
  method SimplifyExpr(constraints: seq<Expr>, e: Expr) returns (r: Expr)
    requires Conditions(constraints) && WF(e)
    ensures OfWidth(r, Width(e))
    ensures forall a: Assignment | Sat(constraints, a) :: Eval(r, a) == Eval(e, a)
  {
    hide Eval, Visited, WF;
    if e.Constant? {
      return e;
    }
    var equalities: map<Expr, Expr> := map[];
    for i := 0 to |constraints|
      invariant Legal(ReplaceMany(equalities))
      invariant forall k | k in equalities :: exists j | 0 <= j < i :: Replacement(constraints[j]) == (k, equalities[k])
    {
      var (k, v) := Replacement(constraints[i]);
      if k !in equalities {
        equalities := equalities[k := v];
      }
    }
    var visitor := ReplaceMany(equalities);
    var v := new ExprVisitor(visitor, true);
    r := v.Visit(e);
    forall a: Assignment | Sat(constraints, a)
      ensures Eval(r, a) == Eval(e, a)
    {
      forall k | k in equalities
        ensures Eval(k, a) == Eval(equalities[k], a)
      {
        var j :| 0 <= j < |constraints| && Replacement(constraints[j]) == (k, equalities[k]);
        ReplacementSound(constraints[j], a);
      }
      VisitedSound(visitor, e, a);
    }
  }

  // ---------------------------------------------------------------- the manager

  lemma ConstantConditions(e: Expr)
    requires OfWidth(e, BOOL) && e.Constant?
    ensures forall a: Assignment :: Holds(e, a) <==> e.value != 0
  {
    forall a: Assignment ensures Holds(e, a) <==> e.value != 0 {
      ConstantNode(e, a);
      BoolValue(e, a);
    }
  }

  lemma Conjunctions(e: Expr)
    requires OfWidth(e, BOOL) && e.Binary? && e.bop.And?
    ensures OfWidth(e.left, BOOL) && OfWidth(e.right, BOOL) && Weight(e) == 1 + Weight(e.left) + Weight(e.right)
    ensures forall a: Assignment :: Holds(e, a) <==> Holds(e.left, a) && Holds(e.right, a)
  {
    forall a: Assignment ensures Holds(e, a) <==> Holds(e.left, a) && Holds(e.right, a) {
      hide Eval, EvalBinary;
      BitwiseNode(e.left, e.right, a);
      BoolValue(e.left, a);
      BoolValue(e.right, a);
      assert BitAnd(1, 1) == 1;
    }
  }

  /** An equality with a constant makes its replacement an equation. */
  lemma EqualitiesAgree(e: Expr)
    requires OfWidth(e, BOOL) && e.Compare? && e.cop.Eq? && e.left.Constant?
    ensures Legal(ReplaceOne(e.right, e.left))
    ensures forall a: Assignment | Holds(e, a) :: Agrees(ReplaceOne(e.right, e.left), a)
  {
    hide Eval, EvalBinary, Pow2;
    forall a: Assignment | Holds(e, a) ensures Agrees(ReplaceOne(e.right, e.left), a) {
      EqNode(e.left, e.right, a);
    }
  }

  class ConstraintManager {
    const rewriteEqualities: bool
    var constraints: seq<Expr>

    constructor (constraints: seq<Expr>, rewriteEqualities: bool := true)
      ensures this.constraints == constraints && this.rewriteEqualities == rewriteEqualities
    {
      this.constraints := constraints;
      this.rewriteEqualities := rewriteEqualities;
    }

    /** Add `e`. The result is false where the source stops at "attempt to add invalid (false)
        constraint", and then old constraints and `e` have no common solution. */
    method AddConstraint(e: Expr) returns (ok: bool)
      requires Conditions(constraints) && OfWidth(e, BOOL)
      modifies this
      ensures Conditions(constraints)
      ensures ok ==> forall a: Assignment :: Sat(constraints, a) <==> old(Sat(constraints, a)) && Holds(e, a)
      ensures !ok ==> forall a: Assignment :: !(old(Sat(constraints, a)) && Holds(e, a))
    {
      hide Eval;
      var simplified := SimplifyExpr(constraints, e);
      ok := AddConstraintInternal(simplified);
    }

    /** Mutually recursive with `RewriteConstraints`; the total weight of the constraints and `e`
        bounds every nested call. */
    method AddConstraintInternal(e: Expr) returns (ok: bool)
      requires Conditions(constraints) && OfWidth(e, BOOL)
      modifies this
      ensures Conditions(constraints)
      ensures ok ==> TotalWeight(constraints) <= old(TotalWeight(constraints)) + Weight(e)
      ensures ok ==> forall a: Assignment :: Sat(constraints, a) <==> old(Sat(constraints, a)) && Holds(e, a)
      ensures !ok ==> forall a: Assignment :: !(old(Sat(constraints, a)) && Holds(e, a))
      decreases TotalWeight(constraints) + Weight(e), 0
    {
      hide Eval, Sat, WF, Width;
      ok := true;
      if e.Constant? {
        ConstantConditions(e);
        ok := e.value != 0;
      } else if e.Binary? && e.bop.And? {
        Conjunctions(e);
        ok := AddConstraintInternal(e.left);
        if ok {
          ok := AddConstraintInternal(e.right);
        }
      } else {
        if e.Compare? && e.cop.Eq? && rewriteEqualities && e.left.Constant? {
          EqualitiesAgree(e);
          var changed;
          ok, changed := RewriteConstraints(ReplaceOne(e.right, e.left));
        }
        if ok {
          Push(e);
        }
      }
    }

    method Push(e: Expr)
      requires Conditions(constraints) && OfWidth(e, BOOL)
      modifies this
      ensures constraints == old(constraints) + [e] && Conditions(constraints)
      ensures TotalWeight(constraints) == old(TotalWeight(constraints)) + Weight(e)
      ensures forall a: Assignment :: Sat(constraints, a) <==> old(Sat(constraints, a)) && Holds(e, a)
    {
      SatPush(constraints, e);
      TotalWeightPush(constraints, e);
      constraints := constraints + [e];
    }

    /** Visit every constraint; what changes is added afresh, what does not is kept. */
    method RewriteConstraints(v: Visitor) returns (ok: bool, changed: bool)
      requires Conditions(constraints) && Legal(v)
      modifies this
      ensures Conditions(constraints)
      ensures ok ==> TotalWeight(constraints) <= old(TotalWeight(constraints))
      ensures ok ==> forall a: Assignment | Agrees(v, a) :: Sat(constraints, a) <==> old(Sat(constraints, a))
      ensures !ok ==> forall a: Assignment | Agrees(v, a) :: !old(Sat(constraints, a))
      ensures ok && !changed ==> constraints == old(constraints)
      decreases TotalWeight(constraints), 1
    {
      hide Eval, Sat, Agrees, WF, Width, Weight, Visited;
      var before := constraints;
      constraints := [];
      ok, changed := true, false;
      var visitor := new ExprVisitor(v, true);
      SatSplit(before, 0);
      var i := 0;
      while i < |before|
        invariant 0 <= i <= |before|
        invariant Conditions(constraints) && Conditions(before[i..]) && Conditions(before[..i])
        invariant visitor.Valid() && visitor.visitor == v
        invariant TotalWeight(constraints) + TotalWeight(before[i..]) <= TotalWeight(before)
        invariant forall a: Assignment | Agrees(v, a) :: Sat(constraints, a) <==> Sat(before[..i], a)
        invariant !changed ==> constraints == before[..i]
      {
        var ce := before[i];
        SatSplit(before, i);
        var e := visitor.Visit(ce);
        forall a: Assignment | Agrees(v, a) ensures Holds(e, a) <==> Holds(ce, a) {
          VisitedSound(v, ce, a);
        }
        if e != ce {
          ok := AddConstraintInternal(e); // enable further reductions
          changed := true;
          if !ok {
            return;
          }
        } else {
          Push(ce);
        }
        i := i + 1;
      }
      assert before[..i] == before;
    }
  }

  /** Cutting a constraint set at `i`. */
  lemma SatSplit(cs: seq<Expr>, i: nat)
    requires Conditions(cs) && i <= |cs|
    ensures Conditions(cs[..i]) && Conditions(cs[i..])
    ensures i == 0 ==> cs[i..] == cs && forall a: Assignment :: Sat(cs[..i], a)
    ensures i < |cs| ==> TotalWeight(cs[i..]) == Weight(cs[i]) + TotalWeight(cs[i + 1..])
    ensures i < |cs| ==> cs[..i + 1] == cs[..i] + [cs[i]] && Conditions(cs[..i + 1]) && Conditions(cs[i + 1..])
    ensures i < |cs| ==> forall a: Assignment :: Sat(cs[..i + 1], a) <==> Sat(cs[..i], a) && Holds(cs[i], a)
    ensures i < |cs| ==> forall a: Assignment | Sat(cs, a) :: Sat(cs[..i], a) && Holds(cs[i], a)
  {
    hide WF, Width, Holds, Weight;
    if i < |cs| {
      assert cs[i..] == [cs[i]] + cs[i + 1..];
      TotalWeightAppend([cs[i]], cs[i + 1..]);
      TotalWeightPush([], cs[i]);
      assert [] + [cs[i]] == [cs[i]];
      SatPush(cs[..i], cs[i]);
    }
  }
}
