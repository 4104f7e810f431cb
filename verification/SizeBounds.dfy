/** Sums and differences never grow: the rewritten node has at most the nodes of the plain one. */
module SizeBounds {
  import opened Expressions
  import opened SmartConstructors

  lemma {:induction false} AddPartialSize(cl: Expr, r: Expr)
    requires cl.Constant? && SameWidth(cl, r) && Width(r) != BOOL
    ensures Size(AddPartialR(cl, r)) <= Size(r) + 2
    decreases 1 + Weight(r), 0
  {
    if cl.value != 0 && ConstantLeft(Add, r) {
      AddSize(AddCreate(cl, r.left), r.right);
    } else if cl.value != 0 && ConstantLeft(Sub, r) {
      SubSize(AddCreate(cl, r.left), r.right);
    }
  }

  lemma {:induction false} SubPartialSize(cl: Expr, r: Expr)
    requires cl.Constant? && SameWidth(cl, r) && Width(r) != BOOL
    ensures Size(SubPartialR(cl, r)) <= Size(r) + 2
    decreases 1 + Weight(r), 0
  {
    if ConstantLeft(Add, r) {
      SubSize(SubCreate(cl, r.left), r.right);
    } else if ConstantLeft(Sub, r) {
      AddSize(SubCreate(cl, r.left), r.right);
    }
  }

  /** The operands of a sum or difference with a constant on the left. */
  lemma Operands(e: Expr)
    requires WF(e) && (ConstantLeft(Add, e) || ConstantLeft(Sub, e))
    ensures SameWidth(e, e.left) && SameWidth(e, e.right)
    ensures Weight(e) == 2 + Weight(e.right) && Weight(e.left) == 1 && Size(e) == 2 + Size(e.right) && Size(e.left) == 1
  {
  }

  lemma ConstantSize(e: Expr)
    ensures e.Constant? ==> Size(e) == 1 && Weight(e) == 1
    ensures e.Constant? && WF(e) ==> SameWidth(Zero(e.width), e)
  {
  }

  lemma PlainSize(op: BinOp, l: Expr, r: Expr)
    ensures Size(Binary(op, l, r)) == 1 + Size(l) + Size(r)
  {
  }

  /** A sum of two expressions has no more nodes than the plain sum. */
  lemma {:induction false} AddSize(l: Expr, r: Expr)
    requires SameWidth(l, r) && Width(l) != BOOL
    ensures Size(AddCreate(l, r)) <= Size(l) + Size(r) + 1
    decreases Weight(l) + Weight(r), Symbolic(l, r)
  {
    hide WF, Width, Weight, Size, AddPartialR, SubPartialR, XorCreate, FoldBinary;
    ConstantSize(l);
    ConstantSize(r);
    if l.Constant? {
      if r.Constant? {
        ConstantSize(AddCreate(l, r));
      } else {
        AddPartialSize(l, r);
      }
    } else if r.Constant? {
      AddPartialSize(r, l);
    } else if ConstantLeft(Add, l) {
      Operands(l);
      AddSize(l.right, r);
      AddSize(l.left, AddCreate(l.right, r));
    } else if ConstantLeft(Sub, l) {
      Operands(l);
      SubSize(r, l.right);
      AddSize(l.left, SubCreate(r, l.right));
    } else if ConstantLeft(Add, r) {
      Operands(r);
      AddSize(l, r.right);
      AddSize(r.left, AddCreate(l, r.right));
    } else if ConstantLeft(Sub, r) {
      Operands(r);
      SubSize(l, r.right);
      AddSize(r.left, SubCreate(l, r.right));
    } else {
      PlainSize(Add, l, r);
    }
  }

  /** A difference of two expressions has no more nodes than the plain difference. */
  lemma {:induction false} SubSize(l: Expr, r: Expr)
    requires SameWidth(l, r) && Width(l) != BOOL
    ensures Size(SubCreate(l, r)) <= Size(l) + Size(r) + 1
    decreases Weight(l) + Weight(r), Symbolic(l, r)
  {
    hide WF, Width, Weight, Size, AddPartialR, SubPartialR, XorCreate, FoldBinary;
    ConstantSize(l);
    ConstantSize(r);
    if l.Constant? {
      if r.Constant? {
        ConstantSize(SubCreate(l, r));
      } else {
        SubPartialSize(l, r);
      }
    } else if r.Constant? {
      AddPartialSize(FoldBinary(Sub, Zero(r.width), r), l);
    } else if l == r {
      ConstantSize(Zero(Width(l)));
    } else if ConstantLeft(Add, l) {
      Operands(l);
      SubSize(l.right, r);
      AddSize(l.left, SubCreate(l.right, r));
    } else if ConstantLeft(Sub, l) {
      Operands(l);
      AddSize(l.right, r);
      SubSize(l.left, AddCreate(l.right, r));
    } else if ConstantLeft(Add, r) {
      Operands(r);
      SubSize(l, r.right);
      SubSize(SubCreate(l, r.right), r.left);
    } else if ConstantLeft(Sub, r) {
      Operands(r);
      AddSize(l, r.right);
      SubSize(AddCreate(l, r.right), r.left);
    } else {
      PlainSize(Sub, l, r);
    }
  }
}
