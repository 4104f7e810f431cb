/** The expression visitor with its memo table, and the two replacement visitors that the constraint
manager runs.
*/
module ExprVisitors {
  import opened Basics
  import opened BitVector
  import opened Expressions
  import opened SmartConstructors
  import opened ConstructorSoundness

  /** `ExprReplaceVisitor` replaces one expression before and after visiting its kids;
      `ExprReplaceVisitor2` looks expressions up in a table after visiting their kids, and visits the
      rebuilt node again. */
  datatype Visitor = ReplaceOne(src: Expr, dst: Expr) | ReplaceMany(replacements: map<Expr, Expr>)

  /** Expressions are replaced by constants of their own width. */
  ghost predicate Legal(v: Visitor) {
    match v
    case ReplaceOne(src, dst) => WF(src) && dst.Constant? && OfWidth(dst, Width(src))
    case ReplaceMany(m) => forall k | k in m :: WF(k) && m[k].Constant? && OfWidth(m[k], Width(k))
  }

  /** Under `a` every replacement is an equation. */
  ghost predicate Agrees(v: Visitor, a: Assignment)
    requires Legal(v)
  {
    match v
    case ReplaceOne(src, dst) => Eval(src, a) == Eval(dst, a)
    case ReplaceMany(m) => forall k | k in m :: Eval(k, a) == Eval(m[k], a)
  }

  function VisitExpr(v: Visitor, e: Expr): Option<Expr> {
    if v.ReplaceOne? && e == v.src then Some(v.dst) else None
  }

  function VisitExprPost(v: Visitor, e: Expr): Option<Expr> {
    match v
    case ReplaceOne(src, dst) => if e == src then Some(dst) else None
    case ReplaceMany(m) => if e in m then Some(m[e]) else None
  }

  /** Each new kid is the old one or lighter than it. */
  predicate Shrunk(e: Expr, kids: seq<Expr>)
    requires |kids| == NumKids(e)
  {
    forall i | 0 <= i < |kids| :: kids[i] == Kid(e, i) || Weight(kids[i]) < Weight(Kid(e, i))
  }

  function Kids(e: Expr): (kids: seq<Expr>)
    ensures |kids| == NumKids(e)
  {
    seq(NumKids(e), i requires 0 <= i < NumKids(e) => Kid(e, i))
  }

  /** A node over lighter kids is lighter. */
  lemma LighterKids(e: Expr, kids: seq<Expr>)
    requires WF(e) && !e.Constant? && Fits(e, kids) && Shrunk(e, kids) && kids != Kids(e)
    ensures Weight(WithKids(e, kids)) < Weight(e)
  {
    hide WF, Width;
    var i :| 0 <= i < |kids| && kids[i] != Kids(e)[i];
    assert kids[i] != Kid(e, i);
    var d := i;
    assert Weight(kids[0]) <= Weight(Kid(e, 0)) && (d == 0 ==> Weight(kids[0]) < Weight(Kid(e, 0)));
    match e
    case Select(_, _, _) =>
      assert Weight(kids[1]) <= Weight(Kid(e, 1)) && (d == 1 ==> Weight(kids[1]) < Weight(Kid(e, 1)));
      assert Weight(kids[2]) <= Weight(Kid(e, 2)) && (d == 2 ==> Weight(kids[2]) < Weight(Kid(e, 2)));
    case Concat(_, _) =>
      assert Weight(kids[1]) <= Weight(Kid(e, 1)) && (d == 1 ==> Weight(kids[1]) < Weight(Kid(e, 1)));
    case Binary(_, _, _) =>
      assert Weight(kids[1]) <= Weight(Kid(e, 1)) && (d == 1 ==> Weight(kids[1]) < Weight(Kid(e, 1)));
    case Compare(_, _, _) =>
      assert Weight(kids[1]) <= Weight(Kid(e, 1)) && (d == 1 ==> Weight(kids[1]) < Weight(Kid(e, 1)));
    case _ =>
  }

  // ---------------------------------------------------------------- the rewriting

  /** What `ExprVisitor::visit` computes. The measure decreases through `Rebuild`, which is what lets
      the recursive visitor visit its own output. */
  function Visited(v: Visitor, e: Expr): (r: Expr)
    requires Legal(v) && WF(e)
    ensures OfWidth(r, Width(e)) && (r == e || Weight(r) < Weight(e))
    decreases Weight(e), 2
  {
    if e.Constant? then e
    else if VisitExpr(v, e).Some? then VisitExpr(v, e).value
    else
      var kids := VisitedKids(v, e);
      if kids == Kids(e) then Post(v, e)
      else
        LighterKids(e, kids);
        var b := Rebuild(e, kids);
        Post(v, if v.ReplaceMany? then Visited(v, b) else b)
  }

  function VisitedKids(v: Visitor, e: Expr): (kids: seq<Expr>)
    requires Legal(v) && WF(e)
    ensures |kids| == NumKids(e)
    ensures forall i | 0 <= i < |kids| :: kids[i] == Visited(v, Kid(e, i))
    ensures Fits(e, kids) && Shrunk(e, kids)
    decreases Weight(e), 1
  {
    seq(NumKids(e), i requires 0 <= i < NumKids(e) => Visited(v, Kid(e, i)))
  }

  /** The replacement tried on the way up. */
  function Post(v: Visitor, e: Expr): (r: Expr)
    requires Legal(v) && WF(e)
    ensures OfWidth(r, Width(e)) && (r == e || Weight(r) < Weight(e))
  {
    if !e.Constant? && VisitExprPost(v, e).Some? then VisitExprPost(v, e).value else e
  }

  // ---------------------------------------------------------------- meaning

  lemma PostSound(v: Visitor, e: Expr, a: Assignment)
    requires Legal(v) && WF(e) && Agrees(v, a)
    ensures Eval(Post(v, e), a) == Eval(e, a)
  {
    hide Eval;
  }

  /** A node's value depends on the values of its kids alone. */
  lemma SameKids(e: Expr, kids: seq<Expr>, a: Assignment)
    requires WF(e) && !e.Constant? && Fits(e, kids)
    requires forall i | 0 <= i < |kids| :: Eval(kids[i], a) == Eval(Kid(e, i), a)
    ensures Eval(WithKids(e, kids), a) == Eval(e, a)
  {
    hide EvalBinary, EvalCompare, Pow2, Wrap, Slice, Join, ToSigned;
    var n := NumKids(e);
    assert n >= 1 && Eval(kids[0], a) == Eval(Kid(e, 0), a);
    if n >= 2 {
      assert Eval(kids[1], a) == Eval(Kid(e, 1), a);
    }
    if n >= 3 {
      assert Eval(kids[2], a) == Eval(Kid(e, 2), a);
    }
  }

  /** A visit preserves meaning under every assignment that satisfies the replacements. */
  lemma {:induction false} VisitedSound(v: Visitor, e: Expr, a: Assignment)
    requires Legal(v) && WF(e) && Agrees(v, a)
    ensures Eval(Visited(v, e), a) == Eval(e, a)
    decreases Weight(e), 2
  {
    hide Eval, Rebuild;
    if !e.Constant? && VisitExpr(v, e).None? {
      var kids := VisitedKids(v, e);
      if kids == Kids(e) {
        PostSound(v, e, a);
      } else {
        LighterKids(e, kids);
        RebuiltSound(v, e, kids, a);
        var b := Rebuild(e, kids);
        if v.ReplaceMany? {
          VisitedSound(v, b, a);
          PostSound(v, Visited(v, b), a);
        } else {
          PostSound(v, b, a);
        }
      }
    }
  }

  lemma {:induction false} RebuiltSound(v: Visitor, e: Expr, kids: seq<Expr>, a: Assignment)
    requires Legal(v) && WF(e) && !e.Constant? && Agrees(v, a) && kids == VisitedKids(v, e)
    ensures Eval(Rebuild(e, kids), a) == Eval(e, a)
    decreases Weight(e), 1
  {
    hide Eval, Rebuild, Visited;
    forall i | 0 <= i < |kids|
      ensures Eval(kids[i], a) == Eval(Kid(e, i), a)
    {
      VisitedSound(v, Kid(e, i), a);
    }
    SameKids(e, kids, a);
    RebuildSound(e, kids, a);
  }

  // ---------------------------------------------------------------- the memoised engine

  /** `ExprVisitor`: the table `visited` may be consulted at every node, and changes nothing. */
  class ExprVisitor {
    const visitor: Visitor
    const useVisitorHash: bool
    var visited: map<Expr, Expr>

    ghost predicate Valid()
      reads this
    {
      Legal(visitor) && forall e | e in visited :: WF(e) && visited[e] == Visited(visitor, e)
    }

    constructor (visitor: Visitor, useVisitorHash: bool)
      requires Legal(visitor)
      ensures Valid() && this.visitor == visitor && this.useVisitorHash == useVisitorHash && visited == map[]
    {
      this.visitor := visitor;
      this.useVisitorHash := useVisitorHash;
      visited := map[];
    }

    method Visit(e: Expr) returns (r: Expr)
      requires Valid() && WF(e)
      modifies this
      ensures Valid() && r == Visited(visitor, e)
      ensures forall k | k in old(visited) :: k in visited
      decreases Weight(e), 3
    {
      if !useVisitorHash || e.Constant? {
        r := VisitActual(e);
      } else if e in visited {
        r := visited[e];
      } else {
        r := VisitActual(e);
        visited := visited[e := r];
      }
    }

    method VisitActual(e: Expr) returns (r: Expr)
      requires Valid() && WF(e)
      modifies this
      ensures Valid() && r == Visited(visitor, e)
      ensures forall k | k in old(visited) :: k in visited
      decreases Weight(e), 2
    {
      hide Weight, WF, Width, Rebuild;
      if e.Constant? {
        return e;
      }
      var pre := VisitExpr(visitor, e);
      if pre.Some? {
        return pre.value;
      }
      var kids, rebuild := VisitKids(e);
      r := e;
      if rebuild {
        LighterKids(e, kids);
        r := Rebuild(e, kids);
        if visitor.ReplaceMany? {
          r := Visit(r);
        }
      }
      if !r.Constant? {
        var post := VisitExprPost(visitor, r);
        if post.Some? {
          r := post.value;
        }
      }
    }

    /** The loop over the kids. */
    method VisitKids(e: Expr) returns (kids: seq<Expr>, rebuild: bool)
      requires Valid() && WF(e) && !e.Constant?
      modifies this
      ensures Valid() && kids == VisitedKids(visitor, e) && (rebuild <==> kids != Kids(e))
      ensures forall k | k in old(visited) :: k in visited
      decreases Weight(e), 1
    {
      hide Weight, WF, Width, Visited, VisitedKids;
      kids := [];
      rebuild := false;
      for i := 0 to NumKids(e)
        invariant |kids| == i
        invariant Valid() && forall k | k in old(visited) :: k in visited
        invariant kids == VisitedKids(visitor, e)[..i]
        invariant rebuild <==> exists j | 0 <= j < i :: kids[j] != Kid(e, j)
      {
        var kid := Kid(e, i);
        var k := Visit(kid);
        kids := kids + [k];
        if k != kid {
          rebuild := true;
        }
      }
    }
  }
}
