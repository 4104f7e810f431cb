/** The solver as an oracle over satisfying assignments, asked the way `TimingSolver` asks it. */
module Solvers {
  import opened Expressions
  import opened SmartConstructors
  import opened ConstructorSoundness
  import opened Constraints

  /** `e` holds in every solution of `cs`. */
  ghost predicate Must(cs: seq<Expr>, e: Expr)
    requires Conditions(cs) && OfWidth(e, BOOL)
  {
    forall a: Assignment | Sat(cs, a) :: Holds(e, a)
  }

  /** `e` holds in some solution of `cs`. */
  ghost predicate May(cs: seq<Expr>, e: Expr)
    requires Conditions(cs) && OfWidth(e, BOOL)
  {
    exists a: Assignment :: Sat(cs, a) && Holds(e, a)
  }

  ghost predicate Satisfiable(cs: seq<Expr>)
    requires Conditions(cs)
  {
    exists a: Assignment :: Sat(cs, a)
  }

  datatype Validity = True | False | Unknown

  /** The answers to validity and value queries. */
  datatype Solver = Solver(valid: (seq<Expr>, Expr) -> bool, example: (seq<Expr>, Expr) -> nat) {

    /** Validity is answered truly, and an example is the value of the expression in some solution. */
    ghost predicate Correct() {
      && (forall cs, e | Conditions(cs) && OfWidth(e, BOOL) :: valid(cs, e) <==> Must(cs, e))
      && (forall cs, e | Conditions(cs) && WF(e) && Satisfiable(cs) ::
            exists a: Assignment :: Sat(cs, a) && Eval(e, a) == example(cs, e))
    }

    predicate MustBeTrue(cs: seq<Expr>, e: Expr)
      requires OfWidth(e, BOOL)
    {
      if e.Constant? then e.value != 0 else valid(cs, e)
    }

    predicate MustBeFalse(cs: seq<Expr>, e: Expr)
      requires OfWidth(e, BOOL)
    {
      MustBeTrue(cs, IsZero(e))
    }

    predicate MayBeTrue(cs: seq<Expr>, e: Expr)
      requires OfWidth(e, BOOL)
    {
      !MustBeFalse(cs, e)
    }

    function GetValue(cs: seq<Expr>, e: Expr): nat
      requires WF(e)
    {
      if e.Constant? then e.value else example(cs, e)
    }

    /** Whether `e` is always true, always false, or neither. */
    function Evaluate(cs: seq<Expr>, e: Expr): Validity
      requires OfWidth(e, BOOL)
    {
      if e.Constant? then (if e.value != 0 then Validity.True else Validity.False)
      else if valid(cs, e) then Validity.True
      else if valid(cs, IsZero(e)) then Validity.False
      else Unknown
    }

    lemma MustBeTrueCorrect(cs: seq<Expr>, e: Expr)
      requires Correct() && Conditions(cs) && OfWidth(e, BOOL) && Satisfiable(cs)
      ensures MustBeTrue(cs, e) <==> Must(cs, e)
    {
      hide Eval;
      if e.Constant? {
        ConstantConditions(e);
      }
    }

    lemma MayBeTrueCorrect(cs: seq<Expr>, e: Expr)
      requires Correct() && Conditions(cs) && OfWidth(e, BOOL) && Satisfiable(cs)
      ensures MayBeTrue(cs, e) <==> May(cs, e)
    {
      hide Eval, IsZero;
      MustBeTrueCorrect(cs, IsZero(e));
      Negations(e);
    }

    lemma EvaluateCorrect(cs: seq<Expr>, e: Expr)
      requires Correct() && Conditions(cs) && OfWidth(e, BOOL) && Satisfiable(cs)
      ensures Evaluate(cs, e).True? <==> Must(cs, e)
      ensures Evaluate(cs, e).False? <==> !May(cs, e)
      ensures Evaluate(cs, e).Unknown? ==> May(cs, e) && May(cs, IsZero(e)) && !e.Constant?
    {
      hide Eval, IsZero;
      Negations(e);
      if e.Constant? {
        ConstantConditions(e);
      }
    }

    lemma GetValueCorrect(cs: seq<Expr>, e: Expr)
      requires Correct() && Conditions(cs) && WF(e) && Satisfiable(cs)
      ensures exists a: Assignment :: Sat(cs, a) && Eval(e, a) == GetValue(cs, e)
    {
      hide Eval;
      if e.Constant? {
        var a: Assignment :| Sat(cs, a);
        ConstantNode(e, a);
      }
    }
  }

  lemma Negations(e: Expr)
    requires OfWidth(e, BOOL)
    ensures forall a: Assignment :: Holds(IsZero(e), a) <==> !Holds(e, a)
  {
    hide Eval, IsZero;
    forall a: Assignment ensures Holds(IsZero(e), a) <==> !Holds(e, a) {
      NegationSound(e, a);
    }
  }
}
