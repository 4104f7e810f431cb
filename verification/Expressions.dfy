/** Bit-vector expressions, their widths, their meaning under an assignment, and the measure
that the rewriters decrease.
*/
module Expressions {
  import opened BitVector

  // ---------------------------------------------------------------- syntax

  /** An array of `size` elements of `range` bits indexed by `domain` bits. It is constant when
      `constantValues` is non-empty and symbolic otherwise. */
  datatype Array = Array(name: string, size: nat, domain: nat, range: nat, constantValues: seq<nat>)

  /** A list of writes, the most recent first. */
  datatype Updates = NoUpdates | Update(index: Expr, value: Expr, next: Updates)

  datatype UpdateList = UpdateList(root: Array, head: Updates)

  datatype BinOp = Add | Sub | Mul | UDiv | SDiv | URem | SRem | And | Or | Xor | Shl | LShr | AShr

  datatype CmpOp = Eq | Ne | Ult | Ule | Ugt | Uge | Slt | Sle | Sgt | Sge

  datatype Expr =
    | Constant(value: nat, width: nat)
    | NotOptimized(src: Expr)
    | Read(updates: UpdateList, index: Expr)
    | Select(cond: Expr, trueExpr: Expr, falseExpr: Expr)
    | Concat(left: Expr, right: Expr)
    | Extract(expr: Expr, offset: nat, width: nat)
    | ZExt(src: Expr, width: nat)
    | SExt(src: Expr, width: nat)
    | Not(expr: Expr)
    | Binary(bop: BinOp, left: Expr, right: Expr)
    | Compare(cop: CmpOp, left: Expr, right: Expr)

  const BOOL: nat := 1
  const INT8: nat := 8
  const INT32: nat := 32

  const True := Constant(1, BOOL)
  const False := Constant(0, BOOL)

  function Width(e: Expr): (w: nat) {
    match e
    case Constant(_, width) => width
    case NotOptimized(src) => Width(src)
    case Read(updates, _) => updates.root.range
    case Select(_, t, _) => Width(t)
    case Concat(l, r) => Width(l) + Width(r)
    case Extract(_, _, width) => width
    case ZExt(_, width) => width
    case SExt(_, width) => width
    case Not(src) => Width(src)
    case Binary(_, l, _) => Width(l)
    case Compare(_, _, _) => BOOL
  }

  predicate WFArray(a: Array) {
    && 0 < a.domain <= 64 && 0 < a.range
    && (a.constantValues != [] ==> |a.constantValues| == a.size)
    && forall i | 0 <= i < |a.constantValues| :: a.constantValues[i] < Pow2(a.range)
  }

  /** Every operand has the width its node demands. */
  predicate WF(e: Expr)
    ensures WF(e) ==> Width(e) > 0
  {
    match e
    case Constant(value, width) => width > 0 && value < Pow2(width)
    case NotOptimized(src) => WF(src)
    case Read(ul, index) =>
      WFArray(ul.root) && WFUpdates(ul.head, ul.root.domain, ul.root.range) && WF(index) && Width(index) == ul.root.domain
    case Select(c, t, f) => WF(c) && WF(t) && WF(f) && Width(c) == BOOL && Width(t) == Width(f)
    case Concat(l, r) => WF(l) && WF(r)
    case Extract(src, offset, width) => WF(src) && width > 0 && offset + width <= Width(src)
    case ZExt(src, width) => WF(src) && Width(src) < width
    case SExt(src, width) => WF(src) && Width(src) < width
    case Not(src) => WF(src)
    case Binary(_, l, r) => WF(l) && WF(r) && Width(l) == Width(r)
    case Compare(_, l, r) => WF(l) && WF(r) && Width(l) == Width(r)
  }

  predicate WFUpdates(us: Updates, domain: nat, range: nat) {
    match us
    case NoUpdates => true
    case Update(index, value, next) =>
      WF(index) && Width(index) == domain && WF(value) && Width(value) == range && WFUpdates(next, domain, range)
  }

  /** `e` is well formed and `w` bits wide. */
  predicate OfWidth(e: Expr, w: nat) {
    WF(e) && Width(e) == w
  }

  // ---------------------------------------------------------------- meaning

  /** The initial bytes of the symbolic arrays; a missing byte reads as zero. */
  type Assignment = map<Array, seq<nat>>

  function InitialValue(a: Assignment, root: Array, i: nat): (v: nat)
    ensures v < Pow2(root.range)
  {
    if root in a && i < |a[root]| then Wrap(a[root][i], root.range) else 0
  }

  function RootValue(a: Assignment, root: Array, i: nat): (v: nat)
    ensures WFArray(root) ==> v < Pow2(root.range)
  {
    if i < |root.constantValues| then root.constantValues[i] else InitialValue(a, root, i)
  }

  /** The machine operation on `w`-bit operands. A zero divisor, which the program excludes by a
      check of its own, yields the dividend as quotient and zero as remainder. */
  function EvalBinary(op: BinOp, x: nat, y: nat, w: nat): (v: nat)
    requires w > 0
    ensures x < Pow2(w) && y < Pow2(w) ==> v < Pow2(w)
  {
    match op
    case Add => Wrap(x + y, w)
    case Sub => Wrap(x - y, w)
    case Mul => Wrap(x * y, w)
    case UDiv => if y == 0 then x else QuotientBound(x, y); x / y
    case SDiv => if ToSigned(y, w) == 0 then x else Wrap(TruncDiv(ToSigned(x, w), ToSigned(y, w)), w)
    case URem => if y == 0 then 0 else x % y
    case SRem => if ToSigned(y, w) == 0 then 0 else Wrap(TruncRem(ToSigned(x, w), ToSigned(y, w)), w)
    case And => BitAnd(x, y)
    case Or =>
      assert x < Pow2(w) && y < Pow2(w) ==> BitOr(x, y) < Pow2(w) by {
        if x < Pow2(w) && y < Pow2(w) { BitOpsBound(x, y, w); }
      }
      BitOr(x, y)
    case Xor =>
      assert x < Pow2(w) && y < Pow2(w) ==> BitXor(x, y) < Pow2(w) by {
        if x < Pow2(w) && y < Pow2(w) { BitOpsBound(x, y, w); }
      }
      BitXor(x, y)
    case Shl => Wrap(x * Pow2(y), w)
    case LShr => QuotientBound(x, Pow2(y)); High(x, y)
    case AShr => Wrap(High(ToSigned(x, w), y), w)
  }

  lemma QuotientBound(x: nat, y: nat)
    requires y > 0
    ensures 0 <= x / y <= x
  {
    assert x == y * (x / y) + x % y;
    if x / y > x {
      AtLeastFactor(y, x / y);
    }
  }

  predicate Holds2(op: CmpOp, x: nat, y: nat, w: nat)
    requires w > 0
  {
    match op
    case Eq => x == y
    case Ne => x != y
    case Ult => x < y
    case Ule => x <= y
    case Ugt => x > y
    case Uge => x >= y
    case Slt => ToSigned(x, w) < ToSigned(y, w)
    case Sle => ToSigned(x, w) <= ToSigned(y, w)
    case Sgt => ToSigned(x, w) > ToSigned(y, w)
    case Sge => ToSigned(x, w) >= ToSigned(y, w)
  }

  function EvalCompare(op: CmpOp, x: nat, y: nat, w: nat): (v: nat)
    requires w > 0
    ensures v < Pow2(1)
  {
    if Holds2(op, x, y, w) then 1 else 0
  }

  /** The value of `e` when the symbolic arrays hold `a`. */
  function Eval(e: Expr, a: Assignment): (v: nat)
    requires WF(e)
    ensures v < Pow2(Width(e))
    decreases e
  {
    hide EvalBinary, EvalCompare, ToSigned, Slice, Join;
    match e
    case Constant(value, _) => value
    case NotOptimized(src) => Eval(src, a)
    case Read(ul, index) => EvalUpdates(ul.head, ul.root, Eval(index, a), a)
    case Select(c, t, f) => if Eval(c, a) == 1 then Eval(t, a) else Eval(f, a)
    case Concat(l, r) => Join(Eval(l, a), Eval(r, a), Width(l), Width(r))
    case Extract(src, offset, width) => Slice(Eval(src, a), offset, width)
    case ZExt(src, width) => Pow2Monotonic(Width(src), width); Eval(src, a)
    case SExt(src, width) => Wrap(ToSigned(Eval(src, a), Width(src)), width)
    case Not(src) => Pow2(Width(src)) - 1 - Eval(src, a)
    case Binary(op, l, r) => EvalBinary(op, Eval(l, a), Eval(r, a), Width(l))
    case Compare(op, l, r) => EvalCompare(op, Eval(l, a), Eval(r, a), Width(l))
  }

  /** The element at `i` after the writes `us` to `root`. */
  function EvalUpdates(us: Updates, root: Array, i: nat, a: Assignment): (v: nat)
    requires WFArray(root) && WFUpdates(us, root.domain, root.range)
    ensures v < Pow2(root.range)
    decreases us
  {
    match us
    case NoUpdates => RootValue(a, root, i)
    case Update(index, value, next) => if Eval(index, a) == i then Eval(value, a) else EvalUpdates(next, root, i, a)
  }

  /** A one-bit expression is true under `a`. */
  predicate Holds(e: Expr, a: Assignment)
    requires WF(e)
  {
    Eval(e, a) == 1
  }

  /** One-bit values are 0 or 1. */
  lemma BoolValue(e: Expr, a: Assignment)
    requires OfWidth(e, BOOL)
    ensures Eval(e, a) == 0 || Eval(e, a) == 1
  {
    assert Pow2(1) == 2;
  }

  // ---------------------------------------------------------------- measure

  function BinaryWeight(op: BinOp): nat {
    match op
    case Or => 3
    case Shl => 3
    case LShr => 3
    case _ => 1
  }

  function CompareWeight(op: CmpOp): nat {
    match op
    case Eq => 1
    case Ule => 5
    case Uge => 5
    case Sle => 5
    case Sge => 5
    case _ => 3
  }

  /** A polynomial interpretation of expressions under which no smart constructor exceeds the plain
      node it stands for: disjunction pays for the two negations that de Morgan's law adds, and
      casts double so that an extract can be pushed into both halves of a concatenation. */
  function Weight(e: Expr): (n: nat)
    ensures n >= 1
    ensures !e.Constant? ==> n >= 2
    decreases e
  {
    match e
    case Constant(_, _) => 1
    case NotOptimized(src) => 1 + Weight(src)
    case Read(ul, index) => 1 + Weight(index) + UpdatesWeight(ul.head)
    case Select(c, t, f) => 4 + Weight(c) + Weight(t) + Weight(f)
    case Concat(l, r) => 1 + Weight(l) + Weight(r)
    case Extract(src, _, _) => 2 * Weight(src)
    case ZExt(src, _) => 2 * Weight(src)
    case SExt(src, _) => 2 * Weight(src)
    case Not(src) => 1 + Weight(src)
    case Binary(op, l, r) => BinaryWeight(op) + Weight(l) + Weight(r)
    case Compare(op, l, r) => CompareWeight(op) + Weight(l) + Weight(r)
  }

  function UpdatesWeight(us: Updates): (n: nat)
    decreases us
  {
    match us
    case NoUpdates => 0
    case Update(index, value, next) => Weight(index) + Weight(value) + UpdatesWeight(next)
  }

  /** Number of nodes of the tree, an update list counting as part of its read. */
  function Size(e: Expr): (n: nat)
    ensures n >= 1
  {
    match e
    case Constant(_, _) => 1
    case NotOptimized(src) => 1 + Size(src)
    case Read(_, index) => 1 + Size(index)
    case Select(c, t, f) => 1 + Size(c) + Size(t) + Size(f)
    case Concat(l, r) => 1 + Size(l) + Size(r)
    case Extract(src, _, _) => 1 + Size(src)
    case ZExt(src, _) => 1 + Size(src)
    case SExt(src, _) => 1 + Size(src)
    case Not(src) => 1 + Size(src)
    case Binary(_, l, r) => 1 + Size(l) + Size(r)
    case Compare(_, l, r) => 1 + Size(l) + Size(r)
  }
}
