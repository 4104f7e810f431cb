/** Every smart constructor means the same as the plain node: for every assignment, the value of
`XCreate(kids)` is the value the node `X(kids)` has by definition. The proofs follow the recursion of
the constructors, on the same measures.
*/
module ConstructorSoundness {
  import opened BitVector
  import opened Expressions
  import opened SmartConstructors
  import opened BinaryMeanings

  // ---------------------------------------------------------------- what each node means
  //
  // `Eval` unfolded one node at a time. The proofs below hide `Eval` and use these instead.

  lemma ConstantNode(c: Expr, a: Assignment)
    requires WF(c) && c.Constant?
    ensures Eval(c, a) == c.value
  {
  }

  lemma AddNode(l: Expr, r: Expr, a: Assignment)
    requires SameWidth(l, r)
    ensures Eval(Binary(Add, l, r), a) == Wrap(Eval(l, a) + Eval(r, a), Width(l))
  {
  }

  lemma SubNode(l: Expr, r: Expr, a: Assignment)
    requires SameWidth(l, r)
    ensures Eval(Binary(Sub, l, r), a) == Wrap(Eval(l, a) - Eval(r, a), Width(l))
  {
  }

  lemma BitwiseNode(l: Expr, r: Expr, a: Assignment)
    requires SameWidth(l, r)
    ensures Eval(Binary(And, l, r), a) == BitAnd(Eval(l, a), Eval(r, a))
    ensures Eval(Binary(Or, l, r), a) == BitOr(Eval(l, a), Eval(r, a))
    ensures Eval(Binary(Xor, l, r), a) == BitXor(Eval(l, a), Eval(r, a))
  {
    hide Eval, Pow2, BitAnd, BitOr, BitXor;
    BinaryNode(And, l, r, a);
    BinaryNode(Or, l, r, a);
    BinaryNode(Xor, l, r, a);
  }

  lemma BinaryNode(op: BinOp, l: Expr, r: Expr, a: Assignment)
    requires SameWidth(l, r)
    ensures Eval(Binary(op, l, r), a) == EvalBinary(op, Eval(l, a), Eval(r, a), Width(l))
  {
    hide EvalBinary, Pow2;
  }

  lemma CompareNode(op: CmpOp, l: Expr, r: Expr, a: Assignment)
    requires SameWidth(l, r)
    ensures Eval(Compare(op, l, r), a) == EvalCompare(op, Eval(l, a), Eval(r, a), Width(l))
  {
    hide EvalBinary, Pow2;
  }

  lemma EqNode(l: Expr, r: Expr, a: Assignment)
    requires SameWidth(l, r)
    ensures Eval(Compare(Eq, l, r), a) == Bit(Eval(l, a) == Eval(r, a))
  {
    hide Eval, EvalBinary, Pow2;
    CompareNode(Eq, l, r, a);
  }

  lemma ConcatNode(l: Expr, r: Expr, a: Assignment)
    requires WF(l) && WF(r)
    ensures Eval(Concat(l, r), a) == Eval(l, a) * Pow2(Width(r)) + Eval(r, a)
  {
    hide EvalBinary, Pow2;
  }

  lemma ExtractNode(src: Expr, offset: nat, w: nat, a: Assignment)
    requires WF(Extract(src, offset, w))
    ensures Eval(Extract(src, offset, w), a) == Slice(Eval(src, a), offset, w)
  {
    hide EvalBinary, Pow2, Slice;
  }

  lemma CastNode(src: Expr, w: nat, a: Assignment)
    requires WF(src) && Width(src) < w
    ensures Eval(ZExt(src, w), a) == Eval(src, a)
    ensures Eval(SExt(src, w), a) == Wrap(ToSigned(Eval(src, a), Width(src)), w)
  {
    hide EvalBinary, Pow2, Wrap, ToSigned;
  }

  lemma SelectNode(c: Expr, t: Expr, f: Expr, a: Assignment)
    requires WF(Select(c, t, f))
    ensures Eval(Select(c, t, f), a) == if Holds(c, a) then Eval(t, a) else Eval(f, a)
  {
    hide EvalBinary, Pow2;
  }

  function Bit(b: bool): nat {
    if b then 1 else 0
  }

  // ---------------------------------------------------------------- concatenation and extraction

  lemma {:induction false} ConcatSound(l: Expr, r: Expr, a: Assignment)
    requires WF(l) && WF(r)
    ensures Eval(ConcatCreate(l, r), a) == Eval(l, a) * Pow2(Width(r)) + Eval(r, a)
    decreases Weight(l) + Weight(r)
  {
    hide Eval, EvalBinary, Slice, Pow2;
    if l.Constant? && r.Constant? {
      ConstantNode(l, a);
      ConstantNode(r, a);
      ConstantNode(ConcatCreate(l, r), a);
    } else if l.Extract? && r.Extract? && l.expr == r.expr && r.offset + r.width == l.offset {
      ExtractNode(l.expr, l.offset, l.width, a);
      ExtractNode(r.expr, r.offset, r.width, a);
      ExtractSound(l.expr, r.offset, l.width + r.width, a);
      SliceJoin(Eval(l.expr, a), r.offset, r.width, l.width);
    } else {
      ConcatNode(l, r, a);
    }
  }

  lemma {:induction false} ExtractSound(src: Expr, offset: nat, w: nat, a: Assignment)
    requires WF(src) && w > 0 && offset + w <= Width(src)
    ensures Eval(ExtractCreate(src, offset, w), a) == Slice(Eval(src, a), offset, w)
    decreases 2 * Weight(src)
  {
    hide Eval, EvalBinary, Slice, Pow2, FoldExtract, ConcatCreate;
    if w == Width(src) {
      SliceWhole(Eval(src, a), w);
    } else if src.Constant? {
      ExtractConstantSound(src, offset, w, a);
    } else if src.Concat? {
      var wr := Width(src.right);
      ConcatNode(src.left, src.right, a);
      if offset >= wr {
        ExtractSound(src.left, offset - wr, w, a);
        SliceHigh(Eval(src.left, a), Eval(src.right, a), wr, offset, w);
      } else if offset + w <= wr {
        ExtractSound(src.right, offset, w, a);
        SliceLow(Eval(src.left, a), Eval(src.right, a), wr, offset, w);
      } else {
        ExtractAcross(src.left, src.right, offset, w, a);
      }
    } else {
      ExtractNode(src, offset, w, a);
    }
  }

  lemma ExtractConstantSound(c: Expr, offset: nat, w: nat, a: Assignment)
    requires WF(c) && c.Constant? && w > 0 && offset + w <= Width(c)
    ensures Eval(FoldExtract(c, offset, w), a) == Slice(Eval(c, a), offset, w)
  {
    hide Eval, EvalBinary, Wrap, High, Pow2, ToSigned;
    ConstantNode(c, a);
    ConstantNode(FoldExtract(c, offset, w), a);
    ArithmeticShiftSlice(c.value, c.width, offset, w);
  }

  /** The extract that straddles both halves of a concatenation. */
  lemma {:induction false} ExtractAcross(l: Expr, r: Expr, offset: nat, w: nat, a: Assignment)
    requires WF(l) && WF(r) && offset < Width(r) < offset + w <= Width(l) + Width(r)
    ensures Eval(ConcatCreate(ExtractCreate(l, 0, w - Width(r) + offset), ExtractCreate(r, offset, Width(r) - offset)), a)
         == Slice(Eval(l, a) * Pow2(Width(r)) + Eval(r, a), offset, w)
    decreases 2 * Weight(l) + 2 * Weight(r) + 1
  {
    hide Eval, EvalBinary, Slice, Pow2;
    var p := Width(r) - offset;
    var q := w - p;
    var hi, lo := Eval(l, a), Eval(r, a);
    ConcatSound(ExtractCreate(l, 0, q), ExtractCreate(r, offset, p), a);
    ExtractSound(l, 0, q, a);
    ExtractSound(r, offset, p, a);
    SliceJoin(hi * Pow2(Width(r)) + lo, offset, p, q);
    SliceHigh(hi, lo, Width(r), Width(r), q);
    SliceLow(hi, lo, Width(r), offset, p);
  }

  /** `ZExtExpr::create` truncates or extends with zeros. */
  lemma ZExtSound(src: Expr, w: nat, a: Assignment)
    requires WF(src) && w > 0
    ensures Eval(ZExtCreate(src, w), a) == Wrap(Eval(src, a), w)
    ensures Width(src) <= w ==> Eval(ZExtCreate(src, w), a) == Eval(src, a)
  {
    hide Eval, EvalBinary, Wrap, High, Pow2;
    var v := Eval(src, a);
    if w < Width(src) {
      ExtractSound(src, 0, w, a);
      SliceFromZero(v, w);
    } else {
      Pow2Monotonic(Width(src), w);
      WrapSmall(v, w);
      if src.Constant? {
        ConstantNode(src, a);
        ConstantNode(ZExtCreate(src, w), a);
      } else if Width(src) < w {
        CastNode(src, w, a);
      }
    }
  }

  /** `SExtExpr::create` truncates or extends with the sign. */
  lemma SExtSound(src: Expr, w: nat, a: Assignment)
    requires WF(src) && w > 0
    ensures Eval(SExtCreate(src, w), a) == Wrap(ToSigned(Eval(src, a), Width(src)), w)
  {
    hide Eval, EvalBinary, Wrap, High, Pow2, Slice, ToSigned;
    var v, n := Eval(src, a), Width(src);
    if w <= n {
      SignedLow(v, n, w);
      SliceWhole(v, n);
    }
    if w < n {
      ExtractSound(src, 0, w, a);
    } else if src.Constant? {
      ConstantNode(src, a);
      ConstantNode(SExtCreate(src, w), a);
    } else if n < w {
      CastNode(src, w, a);
    }
  }

  lemma SignedLow(v: nat, n: nat, w: nat)
    requires v < Pow2(n) && w <= n && n > 0
    ensures Wrap(ToSigned(v, n), w) == Slice(v, 0, w)
  {
    hide Wrap, High, Slice;
    SliceFromZero(ToSigned(v, n), w);
    SliceLow(if v < Pow2(n - 1) then 0 else -1, v, n, 0, w);
  }

  lemma NotSound(src: Expr, a: Assignment)
    requires WF(src)
    ensures Eval(NotCreate(src), a) == Eval(Not(src), a)
  {
    hide EvalBinary, Pow2;
    if src.Constant? {
      ConstantNode(src, a);
    }
  }

  // ---------------------------------------------------------------- conjunction and disjunction

  lemma AndPartialSound(l: Expr, cr: Expr, a: Assignment)
    requires cr.Constant? && SameWidth(l, cr)
    ensures Eval(AndPartial(l, cr), a) == BitAnd(Eval(l, a), cr.value)
    ensures Eval(AndPartial(l, cr), a) == BitAnd(cr.value, Eval(l, a))
  {
    hide Eval, EvalBinary, Pow2;
    ConstantNode(cr, a);
    BitwiseNode(l, cr, a);
    AllOnes(Eval(l, a), Width(l));
    BitOpsCommute(Eval(l, a), cr.value);
  }

  lemma AndSound(l: Expr, r: Expr, a: Assignment)
    requires SameWidth(l, r)
    ensures Eval(AndCreate(l, r), a) == BitAnd(Eval(l, a), Eval(r, a))
  {
    hide Eval, EvalBinary, Pow2, AndPartial, BitAnd;
    if l.Constant? {
      ConstantNode(l, a);
      if r.Constant? {
        ConstantNode(r, a);
        ConstantNode(AndCreate(l, r), a);
        FoldBitwise(l, r);
      } else {
        AndPartialSound(r, l, a);
      }
    } else if r.Constant? {
      ConstantNode(r, a);
      AndPartialSound(l, r, a);
    } else {
      BitwiseNode(l, r, a);
    }
  }

  lemma OrPartialSound(l: Expr, cr: Expr, a: Assignment)
    requires cr.Constant? && SameWidth(l, cr)
    ensures Eval(OrPartial(l, cr), a) == BitOr(Eval(l, a), cr.value)
    ensures Eval(OrPartial(l, cr), a) == BitOr(cr.value, Eval(l, a))
  {
    hide Eval, EvalBinary, Pow2;
    ConstantNode(cr, a);
    BitwiseNode(l, cr, a);
    AllOnes(Eval(l, a), Width(l));
    BitOpsCommute(Eval(l, a), cr.value);
  }

  lemma OrSound(l: Expr, r: Expr, a: Assignment)
    requires SameWidth(l, r)
    ensures Eval(OrCreate(l, r), a) == BitOr(Eval(l, a), Eval(r, a))
  {
    hide Eval, EvalBinary, Pow2, OrPartial, BitOr;
    if l.Constant? {
      ConstantNode(l, a);
      if r.Constant? {
        ConstantNode(r, a);
        ConstantNode(OrCreate(l, r), a);
        FoldBitwise(l, r);
      } else {
        OrPartialSound(r, l, a);
      }
    } else if r.Constant? {
      ConstantNode(r, a);
      OrPartialSound(l, r, a);
    } else {
      BitwiseNode(l, r, a);
    }
  }

  lemma FoldBitwise(l: Expr, r: Expr)
    requires SameWidth(l, r) && l.Constant? && r.Constant?
    ensures FoldBinary(And, l, r).value == BitAnd(l.value, r.value)
    ensures FoldBinary(Or, l, r).value == BitOr(l.value, r.value)
    ensures FoldBinary(Xor, l, r).value == BitXor(l.value, r.value)
  {
  }

  /** On one bit the bit-wise operators are the connectives. */
  lemma Connectives(l: Expr, r: Expr, a: Assignment)
    requires OfWidth(l, BOOL) && OfWidth(r, BOOL)
    ensures Holds(AndCreate(l, r), a) <==> Holds(l, a) && Holds(r, a)
    ensures Holds(OrCreate(l, r), a) <==> Holds(l, a) || Holds(r, a)
    ensures Eval(AndCreate(l, r), a) <= 1 && Eval(OrCreate(l, r), a) <= 1
  {
    hide Eval, EvalBinary, AndCreate, OrCreate;
    AndSound(l, r, a);
    OrSound(l, r, a);
    BoolValue(l, a);
    BoolValue(r, a);
    BoolValue(AndCreate(l, r), a);
    BoolValue(OrCreate(l, r), a);
    assert BitAnd(1, 1) == 1 && BitOr(1, 1) == 1;
  }

  // ---------------------------------------------------------------- equality

  lemma SignTruncates(v: nat, n: nat, w: nat)
    requires 0 < n <= w && v < Pow2(n)
    ensures Wrap(Wrap(ToSigned(v, n), w), n) == v
  {
    hide Wrap, High, Slice, Pow2, ToSigned;
    var s := ToSigned(v, n);
    SliceOfWrap(s, w, 0, n);
    SliceFromZero(s, n);
    SliceFromZero(Wrap(s, w), n);
    SignedLow(v, n, n);
    SliceWhole(v, n);
  }

  lemma ZeroTruncates(v: nat, n: nat, w: nat)
    requires 0 < n <= w && v < Pow2(n)
    ensures Wrap(v, w) == v && Wrap(v, n) == v
  {
    hide Wrap, Pow2;
    Pow2Monotonic(n, w);
    WrapSmall(v, n);
    WrapSmall(v, w);
  }

  /** Moving a constant across an equation. */
  lemma SolveAdd(c: nat, k: nat, x: nat, w: nat)
    requires c < Pow2(w) && x < Pow2(w)
    ensures c == Wrap(k + x, w) <==> Wrap(c - k, w) == x
  {
    hide Wrap, Pow2;
    WrapAbsorbs(k + x, k, w);
    WrapAbsorbs(c - k, k, w);
    WrapSmall(x, w);
    WrapSmall(c, w);
  }

  lemma SolveSub(c: nat, k: nat, x: nat, w: nat)
    requires c < Pow2(w) && x < Pow2(w)
    ensures c == Wrap(k - x, w) <==> Wrap(k - c, w) == x
  {
    hide Wrap, Pow2;
    WrapAbsorbs(k - x, k, w);
    WrapAbsorbs(k - c, k, w);
    WrapSmall(x, w);
    WrapSmall(c, w);
  }

  lemma FoldDifference(l: Expr, r: Expr)
    requires SameWidth(l, r) && l.Constant? && r.Constant?
    ensures FoldBinary(Sub, l, r).value == Wrap(l.value - r.value, l.width)
    ensures FoldBinary(Add, l, r).value == Wrap(l.value + r.value, l.width)
  {
  }

  lemma {:induction false} EqPartialRSound(cl: Expr, r: Expr, a: Assignment)
    requires cl.Constant? && SameWidth(cl, r)
    ensures Eval(EqPartialR(cl, r), a) == Bit(cl.value == Eval(r, a))
    decreases 1 + Weight(r), 1
  {
    hide Eval, EvalBinary, Wrap, Pow2;
    if cl.width == BOOL {
      EqBoolSound(cl, r, a);
    } else if r.SExt? || r.ZExt? {
      EqCastSound(cl, r, a);
    } else if ConstantLeft(Add, r) {
      AddNode(r.left, r.right, a);
      ConstantNode(r.left, a);
      SolveAdd(cl.value, r.left.value, Eval(r.right, a), cl.width);
      FoldDifference(cl, r.left);
      EqPartialRSound(FoldBinary(Sub, cl, r.left), r.right, a);
    } else if ConstantLeft(Sub, r) {
      SubNode(r.left, r.right, a);
      ConstantNode(r.left, a);
      SolveSub(cl.value, r.left.value, Eval(r.right, a), cl.width);
      FoldDifference(r.left, cl);
      EqPartialRSound(FoldBinary(Sub, r.left, cl), r.right, a);
    } else {
      EqAllocSound(cl, r, a);
      ConstantNode(cl, a);
    }
  }

  lemma EqAllocSound(l: Expr, r: Expr, a: Assignment)
    requires SameWidth(l, r)
    ensures Eval(EqAlloc(l, r), a) == Bit(Eval(l, a) == Eval(r, a))
  {
    hide Eval, EvalBinary, Pow2;
    EqNode(l, r, a);
    assert WF(True) by { assert Pow2(1) == 2 by { Pow2Byte(); } }
    ConstantNode(True, a);
  }

  /** Equality with a one-bit constant: identity, double negation and de Morgan. */
  lemma {:induction false} EqBoolSound(cl: Expr, r: Expr, a: Assignment)
    requires cl.Constant? && SameWidth(cl, r) && cl.width == BOOL
    ensures Eval(EqPartialR(cl, r), a) == Bit(cl.value == Eval(r, a))
    decreases 1 + Weight(r), 0
  {
    hide Eval, EvalBinary, Pow2;
    ConstantNode(cl, a);
    BoolValue(r, a);
    BoolValue(cl, a);
    EqAllocSound(cl, r, a);
    if cl.value == 0 && r.Compare? && r.cop.Eq? {
      if r.left.Constant? && r.left.width == BOOL && r.left.value == 0 {
        ConstantNode(r.left, a);
        EqNode(r.left, r.right, a);
        BoolValue(r.right, a);
      }
    } else if cl.value == 0 && r.Binary? && r.bop.Or? {
      NorSound(r, a);
    }
  }

  /** Equality of an extension with a constant narrows to the operand, or is false. */
  lemma {:induction false} EqCastSound(cl: Expr, r: Expr, a: Assignment)
    requires cl.Constant? && SameWidth(cl, r) && cl.width != BOOL && (r.SExt? || r.ZExt?)
    ensures Eval(EqPartialR(cl, r), a) == Bit(cl.value == Eval(r, a))
    decreases 1 + Weight(r), 0
  {
    hide Eval, EvalBinary, Wrap, Pow2, ToSigned;
    var n := Width(r.src);
    var trunc := FoldZExt(cl, n);
    CastNode(r.src, cl.width, a);
    EqSound(r.src, trunc, a);
    ConstantNode(trunc, a);
    assert WF(False) by { assert Pow2(1) == 2 by { Pow2Byte(); } }
    ConstantNode(False, a);
    if r.SExt? {
      SignTruncates(Eval(r.src, a), n, cl.width);
    } else {
      ZeroTruncates(Eval(r.src, a), n, cl.width);
      ZeroTruncates(trunc.value, n, cl.width);
    }
  }

  /** not (x or y) is (not x) and (not y). */
  lemma {:induction false} NorSound(r: Expr, a: Assignment)
    requires OfWidth(r, BOOL) && r.Binary? && r.bop.Or?
    ensures Eval(AndCreate(IsZero(r.left), IsZero(r.right)), a) == Bit(Eval(r, a) == 0)
    decreases Weight(r), 0
  {
    hide Eval, EvalBinary, AndCreate, IsZero;
    IsZeroSound(r.left, a);
    IsZeroSound(r.right, a);
    Connectives(IsZero(r.left), IsZero(r.right), a);
    BitwiseNode(r.left, r.right, a);
  }

  lemma {:induction false} EqSound(l: Expr, r: Expr, a: Assignment)
    requires SameWidth(l, r)
    ensures Eval(EqCreate(l, r), a) == Bit(Eval(l, a) == Eval(r, a))
    decreases Weight(l) + Weight(r), 2
  {
    hide Eval, EvalBinary, Pow2, EqPartialR;
    if l.Constant? {
      ConstantNode(l, a);
    }
    if r.Constant? {
      ConstantNode(r, a);
    }
    if l.Constant? && r.Constant? {
      ConstantNode(EqCreate(l, r), a);
    } else if l.Constant? {
      EqPartialRSound(l, r, a);
    } else if r.Constant? {
      EqPartialRSound(r, l, a);
    } else {
      EqAllocSound(l, r, a);
    }
  }

  lemma {:induction false} IsZeroSound(src: Expr, a: Assignment)
    requires WF(src)
    ensures Eval(IsZero(src), a) == Bit(Eval(src, a) == 0)
    decreases Weight(src) + 1, 3
  {
    hide Eval, EvalBinary, Pow2, EqCreate;
    EqSound(src, Zero(Width(src)), a);
    ConstantNode(Zero(Width(src)), a);
  }

  /** `Expr::createIsZero` on a condition is its negation. */
  lemma NegationSound(c: Expr, a: Assignment)
    requires OfWidth(c, BOOL)
    ensures Holds(IsZero(c), a) <==> !Holds(c, a)
  {
    hide Eval, EvalBinary, IsZero;
    IsZeroSound(c, a);
    BoolValue(c, a);
  }

  // ---------------------------------------------------------------- exclusive or

  lemma OneBitArithmetic(x: nat, y: nat)
    requires x < 2 && y < 2
    ensures BitXor(x, y) == Bit(x != y) && Wrap(x + y, 1) == Bit(x != y) && Wrap(x - y, 1) == Bit(x != y)
    ensures Wrap(x * y, 1) == BitAnd(x, y)
  {
    assert Pow2(1) == 2;
    assert BitXor(1, 1) == 0 && BitAnd(1, 1) == 1;
    assert (0 - 1) % 2 == 1;
  }

  lemma OneBit(e: Expr, a: Assignment)
    requires OfWidth(e, BOOL)
    ensures Eval(e, a) < 2
  {
    BoolValue(e, a);
  }

  lemma XorPartialRSound(cl: Expr, r: Expr, a: Assignment)
    requires cl.Constant? && SameWidth(cl, r)
    ensures Eval(XorPartialR(cl, r), a) == BitXor(cl.value, Eval(r, a))
  {
    hide Eval, EvalBinary, EqPartialR;
    ConstantNode(cl, a);
    if cl.value == 0 {
    } else if cl.width == BOOL {
      OneBit(cl, a);
      OneBit(r, a);
      EqPartialRSound(False, r, a);
      OneBitArithmetic(cl.value, Eval(r, a));
    } else {
      BitwiseNode(cl, r, a);
    }
  }

  lemma XorSound(l: Expr, r: Expr, a: Assignment)
    requires SameWidth(l, r)
    ensures Eval(XorCreate(l, r), a) == BitXor(Eval(l, a), Eval(r, a))
  {
    hide Eval, EvalBinary, Pow2, XorPartialR;
    BitOpsCommute(Eval(l, a), Eval(r, a));
    if l.Constant? {
      ConstantNode(l, a);
    }
    if r.Constant? {
      ConstantNode(r, a);
    }
    if l.Constant? && r.Constant? {
      FoldBitwise(l, r);
      ConstantNode(XorCreate(l, r), a);
    } else if l.Constant? {
      XorPartialRSound(l, r, a);
    } else if r.Constant? {
      XorPartialRSound(r, l, a);
    } else {
      BitwiseNode(l, r, a);
    }
  }

  /** On one bit, sum and difference are both exclusive or. */
  lemma OneBitSum(x: Expr, y: Expr, v: nat, a: Assignment)
    requires OfWidth(x, BOOL) && OfWidth(y, BOOL) && v == BitXor(Eval(x, a), Eval(y, a))
    ensures v == Wrap(Eval(x, a) + Eval(y, a), BOOL) && v == Wrap(Eval(x, a) - Eval(y, a), BOOL)
  {
    hide Eval, EvalBinary, Wrap;
    OneBit(x, a);
    OneBit(y, a);
    OneBitArithmetic(Eval(x, a), Eval(y, a));
  }

  // ---------------------------------------------------------------- addition and subtraction

  lemma {:induction false} AddPartialRSound(cl: Expr, r: Expr, a: Assignment)
    requires cl.Constant? && SameWidth(cl, r)
    ensures Eval(AddPartialR(cl, r), a) == Wrap(cl.value + Eval(r, a), cl.width)
    decreases 1 + Weight(r), 0
  {
    hide Eval, EvalBinary, Wrap, Pow2, XorPartialR, AddCreate, SubCreate, FoldBinary;
    var w := cl.width;
    ConstantNode(cl, a);
    if w == BOOL {
      XorPartialRSound(cl, r, a);
      OneBitSum(cl, r, Eval(AddPartialR(cl, r), a), a);
    } else if cl.value == 0 {
      WrapSmall(Eval(r, a), w);
    } else if ConstantLeft(Add, r) || ConstantLeft(Sub, r) {
      var k: int, x: int := r.left.value, Eval(r.right, a);
      var sum := AddCreate(cl, r.left);
      ConstantNode(r.left, a);
      FoldDifference(cl, r.left);
      ConstantNode(sum, a);
      WrapAbsorbs(cl.value + k, x, w);
      if ConstantLeft(Add, r) {
        AddNode(r.left, r.right, a);
        AddSound(sum, r.right, a);
        WrapAbsorbs(k + x, cl.value, w);
      } else {
        SubNode(r.left, r.right, a);
        SubSound(sum, r.right, a);
        WrapAbsorbs(k - x, cl.value, w);
      }
    } else {
      AddNode(cl, r, a);
    }
  }

  lemma {:induction false} AddSound(l: Expr, r: Expr, a: Assignment)
    requires SameWidth(l, r)
    ensures Eval(AddCreate(l, r), a) == Wrap(Eval(l, a) + Eval(r, a), Width(l))
    decreases Weight(l) + Weight(r), Symbolic(l, r)
  {
    hide Eval, EvalBinary, Wrap, Pow2, FoldBinary, AddPartialR, SubCreate;
    if l.Constant? {
      ConstantNode(l, a);
    }
    if r.Constant? {
      ConstantNode(r, a);
    }
    if l.Constant? && r.Constant? {
      FoldDifference(l, r);
      ConstantNode(AddCreate(l, r), a);
    } else if l.Constant? {
      AddPartialRSound(l, r, a);
    } else if r.Constant? {
      AddPartialRSound(r, l, a);
    } else if Width(l) == BOOL {
      XorSound(l, r, a);
      OneBitSum(l, r, Eval(XorCreate(l, r), a), a);
    } else if ConstantLeft(Add, l) {
      AddAddLeftSound(l, r, a);
    } else if ConstantLeft(Sub, l) {
      AddSubLeftSound(l, r, a);
    } else if ConstantLeft(Add, r) {
      AddAddRightSound(l, r, a);
    } else if ConstantLeft(Sub, r) {
      AddSubRightSound(l, r, a);
    } else {
      AddNode(l, r, a);
    }
  }

  /** (k+p)+y = k+(p+y). */
  lemma {:induction false} AddAddLeftSound(l: Expr, r: Expr, a: Assignment)
    requires SameWidth(l, r) && !r.Constant? && Width(l) != BOOL && ConstantLeft(Add, l)
    ensures Eval(AddCreate(l, r), a) == Wrap(Eval(l, a) + Eval(r, a), Width(l))
    decreases Weight(l) + Weight(r), 3
  {
    hide Eval, EvalBinary, Wrap, Pow2, FoldBinary, AddPartialR, SubCreate;
    var w, k: int, p: int, y: int := Width(l), l.left.value, Eval(l.right, a), Eval(r, a);
    ConstantNode(l.left, a);
    AddNode(l.left, l.right, a);
    AddSound(l.right, r, a);
    AddSound(l.left, AddCreate(l.right, r), a);
    WrapAbsorbs(p + y, k, w);
    WrapAbsorbs(k + p, y, w);
  }

  /** (k-p)+y = k+(y-p). */
  lemma {:induction false} AddSubLeftSound(l: Expr, r: Expr, a: Assignment)
    requires SameWidth(l, r) && !r.Constant? && Width(l) != BOOL && ConstantLeft(Sub, l)
    ensures Eval(AddCreate(l, r), a) == Wrap(Eval(l, a) + Eval(r, a), Width(l))
    decreases Weight(l) + Weight(r), 3
  {
    hide Eval, EvalBinary, Wrap, Pow2, FoldBinary, AddPartialR, SubCreate;
    var w, k: int, p: int, y: int := Width(l), l.left.value, Eval(l.right, a), Eval(r, a);
    ConstantNode(l.left, a);
    SubNode(l.left, l.right, a);
    SubSound(r, l.right, a);
    AddSound(l.left, SubCreate(r, l.right), a);
    WrapAbsorbs(y - p, k, w);
    WrapAbsorbs(k - p, y, w);
  }

  /** x+(k+p) = k+(x+p). */
  lemma {:induction false} AddAddRightSound(l: Expr, r: Expr, a: Assignment)
    requires SameWidth(l, r) && !l.Constant? && Width(l) != BOOL && !ConstantLeft(Add, l) && !ConstantLeft(Sub, l) && ConstantLeft(Add, r)
    ensures Eval(AddCreate(l, r), a) == Wrap(Eval(l, a) + Eval(r, a), Width(l))
    decreases Weight(l) + Weight(r), 3
  {
    hide Eval, EvalBinary, Wrap, Pow2, FoldBinary, AddPartialR, SubCreate;
    var w, k: int, p: int, x: int := Width(l), r.left.value, Eval(r.right, a), Eval(l, a);
    ConstantNode(r.left, a);
    AddNode(r.left, r.right, a);
    AddSound(l, r.right, a);
    AddSound(r.left, AddCreate(l, r.right), a);
    WrapAbsorbs(x + p, k, w);
    WrapAbsorbs(k + p, x, w);
  }

  /** x+(k-p) = k+(x-p). */
  lemma {:induction false} AddSubRightSound(l: Expr, r: Expr, a: Assignment)
    requires SameWidth(l, r) && !l.Constant? && Width(l) != BOOL && !ConstantLeft(Add, l) && !ConstantLeft(Sub, l) && ConstantLeft(Sub, r)
    ensures Eval(AddCreate(l, r), a) == Wrap(Eval(l, a) + Eval(r, a), Width(l))
    decreases Weight(l) + Weight(r), 3
  {
    hide Eval, EvalBinary, Wrap, Pow2, FoldBinary, AddPartialR, SubCreate;
    var w, k: int, p: int, x: int := Width(l), r.left.value, Eval(r.right, a), Eval(l, a);
    ConstantNode(r.left, a);
    SubNode(r.left, r.right, a);
    SubSound(l, r.right, a);
    AddSound(r.left, SubCreate(l, r.right), a);
    WrapAbsorbs(x - p, k, w);
    WrapAbsorbs(k - p, x, w);
  }

  lemma {:induction false} SubPartialRSound(cl: Expr, r: Expr, a: Assignment)
    requires cl.Constant? && SameWidth(cl, r)
    ensures Eval(SubPartialR(cl, r), a) == Wrap(cl.value - Eval(r, a), cl.width)
    decreases 1 + Weight(r), 0
  {
    hide Eval, EvalBinary, Wrap, Pow2, XorPartialR, AddCreate, SubCreate, FoldBinary;
    var w := cl.width;
    ConstantNode(cl, a);
    if w == BOOL {
      XorPartialRSound(cl, r, a);
      OneBitSum(cl, r, Eval(SubPartialR(cl, r), a), a);
    } else if ConstantLeft(Add, r) || ConstantLeft(Sub, r) {
      var k: int, x: int := r.left.value, Eval(r.right, a);
      var diff := SubCreate(cl, r.left);
      ConstantNode(r.left, a);
      FoldDifference(cl, r.left);
      ConstantNode(diff, a);
      WrapAbsorbs(cl.value - k, x, w);
      if ConstantLeft(Add, r) {
        AddNode(r.left, r.right, a);
        SubSound(diff, r.right, a);
        WrapAbsorbs(k + x, cl.value, w);
      } else {
        SubNode(r.left, r.right, a);
        AddSound(diff, r.right, a);
        WrapAbsorbs(k - x, cl.value, w);
      }
    } else {
      SubNode(cl, r, a);
    }
  }

  lemma {:induction false} SubSound(l: Expr, r: Expr, a: Assignment)
    requires SameWidth(l, r)
    ensures Eval(SubCreate(l, r), a) == Wrap(Eval(l, a) - Eval(r, a), Width(l))
    decreases Weight(l) + Weight(r), Symbolic(l, r)
  {
    hide Eval, EvalBinary, Wrap, Pow2, FoldBinary, SubPartialR, AddPartialR, AddCreate;
    if l.Constant? {
      ConstantNode(l, a);
    }
    if r.Constant? {
      ConstantNode(r, a);
    }
    if l.Constant? && r.Constant? {
      FoldDifference(l, r);
      ConstantNode(SubCreate(l, r), a);
    } else if l.Constant? {
      SubPartialRSound(l, r, a);
    } else if r.Constant? {
      FoldDifference(Zero(r.width), r);
      AddPartialRSound(FoldBinary(Sub, Zero(r.width), r), l, a);
      WrapAbsorbs(0 - r.value, Eval(l, a), Width(l));
    } else if Width(l) == BOOL {
      XorSound(l, r, a);
      OneBitSum(l, r, Eval(XorCreate(l, r), a), a);
    } else if l == r {
      WrapSmall(0, Width(l));
      ConstantNode(SubCreate(l, r), a);
    } else if ConstantLeft(Add, l) {
      SubAddLeftSound(l, r, a);
    } else if ConstantLeft(Sub, l) {
      SubSubLeftSound(l, r, a);
    } else if ConstantLeft(Add, r) {
      SubAddRightSound(l, r, a);
    } else if ConstantLeft(Sub, r) {
      SubSubRightSound(l, r, a);
    } else {
      SubNode(l, r, a);
    }
  }

  /** (k+p)-y = k+(p-y). */
  lemma {:induction false} SubAddLeftSound(l: Expr, r: Expr, a: Assignment)
    requires SameWidth(l, r) && l != r && !r.Constant? && Width(l) != BOOL && ConstantLeft(Add, l)
    ensures Eval(SubCreate(l, r), a) == Wrap(Eval(l, a) - Eval(r, a), Width(l))
    decreases Weight(l) + Weight(r), 3
  {
    hide Eval, EvalBinary, Wrap, Pow2, FoldBinary, SubPartialR, AddPartialR, AddCreate;
    var w, k: int, p: int, y: int := Width(l), l.left.value, Eval(l.right, a), Eval(r, a);
    ConstantNode(l.left, a);
    AddNode(l.left, l.right, a);
    SubSound(l.right, r, a);
    AddSound(l.left, SubCreate(l.right, r), a);
    WrapAbsorbs(p - y, k, w);
    WrapAbsorbs(k + p, y, w);
  }

  /** (k-p)-y = k-(p+y). */
  lemma {:induction false} SubSubLeftSound(l: Expr, r: Expr, a: Assignment)
    requires SameWidth(l, r) && l != r && !r.Constant? && Width(l) != BOOL && ConstantLeft(Sub, l)
    ensures Eval(SubCreate(l, r), a) == Wrap(Eval(l, a) - Eval(r, a), Width(l))
    decreases Weight(l) + Weight(r), 3
  {
    hide Eval, EvalBinary, Wrap, Pow2, FoldBinary, SubPartialR, AddPartialR, AddCreate;
    var w, k: int, p: int, y: int := Width(l), l.left.value, Eval(l.right, a), Eval(r, a);
    ConstantNode(l.left, a);
    SubNode(l.left, l.right, a);
    AddSound(l.right, r, a);
    SubSound(l.left, AddCreate(l.right, r), a);
    WrapAbsorbs(p + y, k, w);
    WrapAbsorbs(k - p, y, w);
  }

  /** x-(k+p) = (x-p)-k. */
  lemma {:induction false} SubAddRightSound(l: Expr, r: Expr, a: Assignment)
    requires SameWidth(l, r) && l != r && !l.Constant? && Width(l) != BOOL && !ConstantLeft(Add, l) && !ConstantLeft(Sub, l) && ConstantLeft(Add, r)
    ensures Eval(SubCreate(l, r), a) == Wrap(Eval(l, a) - Eval(r, a), Width(l))
    decreases Weight(l) + Weight(r), 3
  {
    hide Eval, EvalBinary, Wrap, Pow2, FoldBinary, SubPartialR, AddPartialR, AddCreate;
    var w, k: int, p: int, x: int := Width(l), r.left.value, Eval(r.right, a), Eval(l, a);
    ConstantNode(r.left, a);
    AddNode(r.left, r.right, a);
    SubSound(l, r.right, a);
    SubSound(SubCreate(l, r.right), r.left, a);
    WrapAbsorbs(x - p, k, w);
    WrapAbsorbs(k + p, x, w);
  }

  /** x-(k-p) = (x+p)-k. */
  lemma {:induction false} SubSubRightSound(l: Expr, r: Expr, a: Assignment)
    requires SameWidth(l, r) && l != r && !l.Constant? && Width(l) != BOOL && !ConstantLeft(Add, l) && !ConstantLeft(Sub, l) && ConstantLeft(Sub, r)
    ensures Eval(SubCreate(l, r), a) == Wrap(Eval(l, a) - Eval(r, a), Width(l))
    decreases Weight(l) + Weight(r), 3
  {
    hide Eval, EvalBinary, Wrap, Pow2, FoldBinary, SubPartialR, AddPartialR, AddCreate;
    var w, k: int, p: int, x: int := Width(l), r.left.value, Eval(r.right, a), Eval(l, a);
    ConstantNode(r.left, a);
    SubNode(r.left, r.right, a);
    AddSound(l, r.right, a);
    SubSound(AddCreate(l, r.right), r.left, a);
    WrapAbsorbs(x + p, k, w);
    WrapAbsorbs(k - p, x, w);
  }

  // ---------------------------------------------------------------- the two families

  lemma MulSound(l: Expr, r: Expr, a: Assignment)
    requires SameWidth(l, r)
    ensures Eval(MulCreate(l, r), a) == EvalBinary(Mul, Eval(l, a), Eval(r, a), Width(l))
  {
    hide Eval, EvalBinary, Pow2;
    BinaryNode(Mul, l, r, a);
    BinaryNode(Mul, r, l, a);
    MulLaws(Eval(l, a), Eval(r, a), Width(l));
    if l.Constant? {
      ConstantNode(l, a);
    }
    if r.Constant? {
      ConstantNode(r, a);
    }
    if l.Constant? && r.Constant? {
      ConstantNode(MulCreate(l, r), a);
    } else if Width(l) == BOOL {
      AndSound(l, r, a);
      OneBit(l, a);
      OneBit(r, a);
      OneBitArithmetic(Eval(l, a), Eval(r, a));
      MulIsWrap(Eval(l, a), Eval(r, a));
    }
  }

  lemma MulIsWrap(x: nat, y: nat)
    ensures EvalBinary(Mul, x, y, BOOL) == Wrap(x * y, BOOL)
  {
  }

  lemma MulLaws(x: nat, y: nat, w: nat)
    requires x < Pow2(w) && y < Pow2(w) && w > 0
    ensures EvalBinary(Mul, x, y, w) == EvalBinary(Mul, y, x, w)
    ensures EvalBinary(Mul, 1, y, w) == y && EvalBinary(Mul, 0, y, w) == 0
    ensures EvalBinary(Mul, x, 1, w) == x && EvalBinary(Mul, x, 0, w) == 0
  {
    hide Pow2;
    WrapSmall(x, w);
    WrapSmall(y, w);
    WrapSmall(0, w);
    assert x * y == y * x && 1 * y == y && 0 * y == 0 && x * 1 == x && x * 0 == 0;
  }

  /** On one bit: the divisor is 1 unless it is zero, and a shift by one clears everything. */
  lemma OneBitPlain(op: BinOp, x: nat, y: nat)
    requires x < 2 && y < 2 && op in {UDiv, SDiv, URem, SRem, Shl, LShr, AShr}
    ensures EvalBinary(op, x, y, 1) ==
            if op in {URem, SRem} then 0 else if op in {Shl, LShr} then BitAnd(x, Bit(y == 0)) else x
  {
    assert Pow2(0) == 1 && Pow2(1) == 2;
    assert BitAnd(1, 1) == 1 && BitAnd(x, 0) == 0 && BitAnd(0, 1) == 0;
    assert TruncDiv(0, -1) == 0 && TruncDiv(-1, -1) == 1;
    assert (-1) % 2 == 1 && -1 / 1 == -1 && -1 / 2 == -1;
    assert x * 1 == x && x * 2 % 2 == 0 && x / 2 == 0 && x / 1 == x;
  }

  /** Folding two constants gives what the operation means: the signed quotient is rounded toward zero, and the
      remainder has the sign of the dividend. */
  lemma FoldMeans(op: BinOp, l: Expr, r: Expr)
    requires l.Constant? && r.Constant? && SameWidth(l, r)
    ensures Means(op, l.value, r.value, l.width, FoldBinary(op, l, r).value)
    ensures r.value != 0 && !(ToSigned(l.value, l.width) + Pow2(l.width - 1) == 0 && ToSigned(r.value, l.width) == -1) ==>
      TruncDivision(ToSigned(l.value, l.width), ToSigned(r.value, l.width),
        ToSigned(FoldBinary(SDiv, l, r).value, l.width), ToSigned(FoldBinary(SRem, l, r).value, l.width))
  {
    hide EvalBinary, Means, ToSigned, TruncDivision, Pow2;
    BinaryMeans(op, l.value, r.value, l.width);
    if r.value != 0 {
      SignedResults(l.value, r.value, l.width);
    }
  }

  lemma PlainSound(op: BinOp, l: Expr, r: Expr, a: Assignment)
    requires SameWidth(l, r) && op in {UDiv, SDiv, URem, SRem, Shl, LShr, AShr}
    ensures Eval(PlainCreate(op, l, r), a) == EvalBinary(op, Eval(l, a), Eval(r, a), Width(l))
    ensures Means(op, Eval(l, a), Eval(r, a), Width(l), Eval(PlainCreate(op, l, r), a))
  {
    hide Eval, EvalBinary, AndCreate, IsZero, BitAnd, Means;
    BinaryMeans(op, Eval(l, a), Eval(r, a), Width(l));
    PlainValue(op, l, r, a);
  }

  lemma PlainValue(op: BinOp, l: Expr, r: Expr, a: Assignment)
    requires SameWidth(l, r) && op in {UDiv, SDiv, URem, SRem, Shl, LShr, AShr}
    ensures Eval(PlainCreate(op, l, r), a) == EvalBinary(op, Eval(l, a), Eval(r, a), Width(l))
  {
    hide Eval, EvalBinary, AndCreate, IsZero, BitAnd;
    if l.Constant? && r.Constant? {
      ConstantNode(l, a);
      ConstantNode(r, a);
      ConstantNode(PlainCreate(op, l, r), a);
    } else if Width(l) == BOOL {
      OneBit(l, a);
      OneBit(r, a);
      OneBitPlain(op, Eval(l, a), Eval(r, a));
      IsZeroSound(r, a);
      AndSound(l, IsZero(r), a);
      ConstantNode(False, a);
    } else {
      BinaryNode(op, l, r, a);
    }
  }

  /** Arithmetic and bit-wise constructors mean their node, and the node its operation. */
  lemma BinarySound(op: BinOp, l: Expr, r: Expr, a: Assignment)
    requires SameWidth(l, r)
    ensures Eval(BinaryCreate(op, l, r), a) == Eval(Binary(op, l, r), a)
    ensures Means(op, Eval(l, a), Eval(r, a), Width(l), Eval(BinaryCreate(op, l, r), a))
  {
    BinaryNode(op, l, r, a);
    BinaryMeans(op, Eval(l, a), Eval(r, a), Width(l));
    hide Means, Eval, EvalBinary, Wrap, Pow2, AddCreate, SubCreate, MulCreate, AndCreate, OrCreate, XorCreate, PlainCreate;
    match op
    case Add => AddSound(l, r, a); AddNode(l, r, a);
    case Sub => SubSound(l, r, a); SubNode(l, r, a);
    case Mul => MulSound(l, r, a); BinaryNode(op, l, r, a);
    case And => AndSound(l, r, a); BitwiseNode(l, r, a);
    case Or => OrSound(l, r, a); BitwiseNode(l, r, a);
    case Xor => XorSound(l, r, a); BitwiseNode(l, r, a);
    case _ => PlainSound(op, l, r, a); BinaryNode(op, l, r, a);
  }

  lemma OrderSound(l: Expr, r: Expr, a: Assignment)
    requires SameWidth(l, r)
    ensures Eval(UltCreate(l, r), a) == Eval(Compare(Ult, l, r), a)
    ensures Eval(UleCreate(l, r), a) == Eval(Compare(Ule, l, r), a)
  {
    hide Eval, EvalBinary, Pow2, AndCreate, OrCreate, IsZero;
    CompareNode(Ult, l, r, a);
    CompareNode(Ule, l, r, a);
    if l.Constant? && r.Constant? {
      ConstantNode(l, a);
      ConstantNode(r, a);
      ConstantNode(UltCreate(l, r), a);
      ConstantNode(UleCreate(l, r), a);
    } else if Width(l) == BOOL {
      IsZeroSound(l, a);
      BoolValue(l, a);
      BoolValue(r, a);
      Connectives(IsZero(l), r, a);
    }
  }

  lemma SignedOrderSound(l: Expr, r: Expr, a: Assignment)
    requires SameWidth(l, r)
    ensures Eval(SltCreate(l, r), a) == Eval(Compare(Slt, l, r), a)
    ensures Eval(SleCreate(l, r), a) == Eval(Compare(Sle, l, r), a)
  {
    hide Eval, EvalBinary, AndCreate, OrCreate, IsZero;
    CompareNode(Slt, l, r, a);
    CompareNode(Sle, l, r, a);
    if l.Constant? && r.Constant? {
      ConstantNode(l, a);
      ConstantNode(r, a);
      ConstantNode(SltCreate(l, r), a);
      ConstantNode(SleCreate(l, r), a);
    } else if Width(l) == BOOL {
      assert Pow2(0) == 1 && Pow2(1) == 2;
      IsZeroSound(r, a);
      BoolValue(l, a);
      BoolValue(r, a);
      Connectives(l, IsZero(r), a);
    }
  }

  /** Comparison constructors mean their node. */
  lemma CompareSound(op: CmpOp, l: Expr, r: Expr, a: Assignment)
    requires SameWidth(l, r)
    ensures Eval(CompareCreate(op, l, r), a) == Eval(Compare(op, l, r), a)
    ensures Holds(CompareCreate(op, l, r), a) <==> Compares(op, Eval(l, a), Eval(r, a), Width(l))
  {
    hide Compares, Eval, EvalCompare, CompareCreate, Pow2, WF, Width;
    CompareMeans(op, Eval(l, a), Eval(r, a), Width(l));
    CompareNode(op, l, r, a);
    CompareValue(op, l, r, a);
  }

  lemma CompareValue(op: CmpOp, l: Expr, r: Expr, a: Assignment)
    requires SameWidth(l, r)
    ensures Eval(CompareCreate(op, l, r), a) == Eval(Compare(op, l, r), a)
  {
    hide Eval, EvalBinary, Pow2, ToSigned, EqCreate, UltCreate, UleCreate, SltCreate, SleCreate;
    CompareNode(op, l, r, a);
    match op
    case Eq => EqSound(l, r, a);
    case Ne => NeSound(l, r, a);
    case Ult => OrderSound(l, r, a);
    case Ule => OrderSound(l, r, a);
    case Ugt => OrderSound(r, l, a); CompareNode(Ult, r, l, a);
    case Uge => OrderSound(r, l, a); CompareNode(Ule, r, l, a);
    case Slt => SignedOrderSound(l, r, a);
    case Sle => SignedOrderSound(l, r, a);
    case Sgt => SignedOrderSound(r, l, a); CompareNode(Slt, r, l, a);
    case Sge => SignedOrderSound(r, l, a); CompareNode(Sle, r, l, a);
  }

  lemma NeSound(l: Expr, r: Expr, a: Assignment)
    requires SameWidth(l, r)
    ensures Eval(EqCreate(False, EqCreate(l, r)), a) == Bit(Eval(l, a) != Eval(r, a))
  {
    hide Eval, EvalBinary, EqCreate;
    EqSound(l, r, a);
    EqSound(False, EqCreate(l, r), a);
    ConstantNode(False, a);
  }

  lemma SelectSound(c: Expr, t: Expr, f: Expr, a: Assignment)
    requires OfWidth(c, BOOL) && SameWidth(t, f)
    ensures Eval(SelectCreate(c, t, f), a) == if Holds(c, a) then Eval(t, a) else Eval(f, a)
  {
    hide Eval, EvalBinary, Pow2, AndCreate, OrCreate, IsZero;
    BoolValue(c, a);
    if c.Constant? {
      ConstantNode(c, a);
    } else if Width(t) == BOOL && (t.Constant? || f.Constant?) {
      BoolSelectSound(c, t, f, a);
    } else {
      SelectNode(c, t, f, a);
    }
  }

  /** Selection between a one-bit value and a constant is a conjunction or a disjunction. */
  lemma BoolSelectSound(c: Expr, t: Expr, f: Expr, a: Assignment)
    requires OfWidth(c, BOOL) && SameWidth(t, f) && Width(t) == BOOL && (t.Constant? || f.Constant?)
    ensures Eval(SelectCreate(c, t, f), a) == if Holds(c, a) then Eval(t, a) else Eval(f, a)
  {
    hide Eval, EvalBinary, Pow2, AndCreate, OrCreate, IsZero;
    BoolValue(c, a);
    BoolValue(t, a);
    BoolValue(f, a);
    NegationSound(c, a);
    if c.Constant? {
      ConstantNode(c, a);
    } else if t.Constant? {
      ConstantNode(t, a);
      Connectives(c, f, a);
      Connectives(IsZero(c), f, a);
    } else {
      ConstantNode(f, a);
      Connectives(c, t, a);
      Connectives(IsZero(c), t, a);
    }
  }

  // ---------------------------------------------------------------- array reads

  /** What the scan establishes about the element at `index`: it is the found value, or the element
      of the list that is left; and past the oldest write it is the root's element. */
  lemma {:induction false} ScanSound(us: Updates, root: Array, index: Expr, a: Assignment)
    requires WFArray(root) && OfWidth(index, root.domain) && WFUpdates(us, root.domain, root.range)
    ensures var s := ScanUpdates(us, index, root.range);
      EvalUpdates(us, root, Eval(index, a), a) ==
        match s
        case Found(v) => Eval(v, a)
        case Blocked(rest) => EvalUpdates(rest, root, Eval(index, a), a)
        case Exhausted => RootValue(a, root, Eval(index, a))
  {
    hide Eval, EvalBinary, Pow2, EqCreate;
    if us.Update? {
      EqSound(index, us.index, a);
      var cond := EqCreate(index, us.index);
      if cond.Constant? {
        ConstantNode(cond, a);
      }
      if cond.Constant? && cond.value == 0 {
        ScanSound(us.next, root, index, a);
      }
    }
  }

  lemma ReadSound(ul: UpdateList, index: Expr, a: Assignment)
    requires WF(Read(ul, index))
    ensures Eval(ReadCreate(ul, index), a) == Eval(Read(ul, index), a)
  {
    hide EvalBinary, Pow2, ScanUpdates;
    ScanSound(ul.head, ul.root, index, a);
  }

  /** The scan as the loop of `ReadExpr::create`: walk from the most recent write while the index is
      certainly different, and stop at a hit or at a write that cannot be told apart. */
  method ReadExprCreate(ul: UpdateList, index: Expr) returns (e: Expr)
    requires WF(Read(ul, index))
    ensures e == ReadCreate(ul, index)
  {
    var un := ul.head;
    var symbolicWrite := false;
    while un.Update? && !symbolicWrite
      invariant WFUpdates(un, ul.root.domain, ul.root.range)
      invariant ScanUpdates(ul.head, index, ul.root.range) ==
                if symbolicWrite then Blocked(un) else ScanUpdates(un, index, ul.root.range)
      invariant symbolicWrite ==> un.Update?
      decreases un, !symbolicWrite
    {
      var cond := EqCreate(index, un.index);
      if cond.Constant? {
        if cond.value != 0 {
          return un.value;
        }
        un := un.next;
      } else {
        symbolicWrite := true;
      }
    }
    if ul.root.constantValues != [] && !symbolicWrite && index.Constant? && index.value < ul.root.size {
      return Constant(ul.root.constantValues[index.value], ul.root.range);
    }
    if index.Constant? && index.value < ul.root.size {
      return Read(UpdateList(ul.root, un), index);
    }
    return Read(ul, index);
  }

  // ---------------------------------------------------------------- rebuilding a node

  /** Rebuilding with new kids evaluates as the plain node over those kids. */
  lemma RebuildSound(e: Expr, kids: seq<Expr>, a: Assignment)
    requires WF(e) && !e.Constant? && Fits(e, kids)
    ensures Eval(Rebuild(e, kids), a) == Eval(WithKids(e, kids), a)
  {
    hide Eval, EvalBinary, Pow2, Wrap, Slice, ReadCreate, SelectCreate, ConcatCreate, ExtractCreate, ZExtCreate, SExtCreate,
      NotCreate, BinaryCreate, CompareCreate;
    match e
    case NotOptimized(_) =>
    case Read(ul, _) => ReadSound(ul, kids[0], a);
    case Select(_, _, _) => SelectSound(kids[0], kids[1], kids[2], a); SelectNode(kids[0], kids[1], kids[2], a);
    case Concat(_, _) => ConcatSound(kids[0], kids[1], a); ConcatNode(kids[0], kids[1], a);
    case Extract(_, offset, width) => ExtractSound(kids[0], offset, width, a); ExtractNode(kids[0], offset, width, a);
    case ZExt(_, width) => ZExtSound(kids[0], width, a); CastNode(kids[0], width, a);
    case SExt(_, width) => SExtSound(kids[0], width, a); CastNode(kids[0], width, a);
    case Not(_) => NotSound(kids[0], a);
    case Binary(op, _, _) => BinarySound(op, kids[0], kids[1], a);
    case Compare(op, _, _) => CompareSound(op, kids[0], kids[1], a);
  }
}
