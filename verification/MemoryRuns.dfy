/** Whole runs of an object state, and what is written is read back. */
module MemoryRuns {
  import opened BitVector
  import opened Expressions
  import opened SmartConstructors
  import opened ByteOrder
  import opened ObjectStates

  // ---------------------------------------------------------------- round trips

  /** In the plain array, a stored value of any width is read back, in either byte order. */
  lemma ValueRoundTrip(s: seq<nat>, off: nat, v: nat, w: nat, little: bool)
    requires ByteWidth(w) && off + NumBytes(w) <= |s| && v < Pow2(w)
    ensures ReadValue(Spliced(s, off, v, NumBytes(w), little), off, w, little) == v
  {
    hide Slice, Pow2, Spliced;
    if w == BOOL {
      Pow2Monotonic(w, 8);
      OneByteSpliced(s, off, v, little);
      SliceWhole(v, BOOL);
    } else {
      ByteRoundTrip(s, off, v, NumBytes(w), little);
    }
  }

  /** A write followed by a read of the same place and width. */
  method WriteThenRead(os: ObjectState, offset: Expr, value: Expr, little: bool) returns (e: Expr)
    requires os.Valid() && WF(value) && ByteWidth(Width(value)) && WF(offset)
    requires Addressable(offset, NumBytes(Width(value)), os.size)
    modifies os
    ensures os.Valid() && OfWidth(e, Width(value))
    ensures forall a: Assignment | InBounds(offset, NumBytes(Width(value)), os.size, a) :: Eval(e, a) == Eval(value, a)
    ensures forall a: Assignment, i | InBounds(offset, NumBytes(Width(value)), os.size, a) && 0 <= i < os.size &&
      !(Wrap(Eval(offset, a), INT32) <= i < Wrap(Eval(offset, a), INT32) + NumBytes(Width(value))) ::
        os.Contents(a)[i] == old(os.Contents(a))[i]
  {
    hide ObjectState.Valid, ObjectState.Shape, ObjectState.Contents, Eval, WF, Width, Wrap, Pow2, Addressable, ReadValue, NumBytes;
    os.Write(offset, value, little);
    e := os.Read(offset, Width(value), little);
    forall a: Assignment | InBounds(offset, NumBytes(Width(value)), os.size, a) ensures Eval(e, a) == Eval(value, a) {
      ValueRoundTrip(old(os.Contents(a)), Wrap(Eval(offset, a), INT32), Eval(value, a), Width(value), little);
    }
  }

  // ---------------------------------------------------------------- offsets that stay symbolic

  /** No sum or difference of constants is left unfolded along the right spine. */
  predicate Folded(e: Expr) {
    e.Binary? && e.bop in {Add, Sub} && e.left.Constant? ==> !e.right.Constant? && Folded(e.right)
  }

  /** Adding a constant to, or subtracting from a constant, a folded symbolic expression. */
  lemma {:induction false} SymbolicSums(c: Expr, e: Expr)
    requires c.Constant? && SameWidth(c, e) && !e.Constant? && Folded(e) && Width(e) != BOOL
    ensures !AddPartialR(c, e).Constant? && Folded(AddPartialR(c, e))
    ensures !SubPartialR(c, e).Constant? && Folded(SubPartialR(c, e))
    decreases e
  {
    if e.Binary? && e.bop in {Add, Sub} && e.left.Constant? {
      SymbolicSums(FoldBinary(Add, c, e.left), e.right);
      SymbolicSums(FoldBinary(Sub, c, e.left), e.right);
    }
  }

  /** The byte offsets of a folded symbolic offset are symbolic, as the symbolic accesses demand. */
  lemma StaysSymbolic(off: Expr, idx: nat)
    requires OfWidth(off, INT32) && !off.Constant? && Folded(off) && idx < Pow2(INT32)
    ensures !Plus(off, idx).Constant?
  {
    hide Pow2, AddPartialR;
    SymbolicSums(Constant(idx, INT32), off);
  }

  /** Folded, and so are the parts that a truncation may take out. */
  predicate FoldedParts(e: Expr) {
    && Folded(e)
    && (e.Concat? ==> FoldedParts(e.left) && FoldedParts(e.right))
    && (e.Extract? ==> FoldedParts(e.expr))
  }

  lemma {:induction false} ConcatParts(l: Expr, r: Expr)
    requires WF(l) && WF(r) && FoldedParts(l) && FoldedParts(r)
    ensures FoldedParts(ConcatCreate(l, r))
    decreases Weight(l) + Weight(r)
  {
    if l.Extract? && r.Extract? && l.expr == r.expr && r.offset + r.width == l.offset {
      ExtractParts(l.expr, r.offset, l.width + r.width);
    }
  }

  /** What is taken out of folded parts has folded parts. */
  lemma {:induction false} ExtractParts(src: Expr, offset: nat, w: nat)
    requires WF(src) && w > 0 && offset + w <= Width(src) && FoldedParts(src)
    ensures FoldedParts(ExtractCreate(src, offset, w))
    decreases 2 * Weight(src)
  {
    if src.Concat? && w != Width(src) {
      var wr := Width(src.right);
      if offset >= wr {
        ExtractParts(src.left, offset - wr, w);
      } else if offset + w <= wr {
        ExtractParts(src.right, offset, w);
      } else {
        ExtractParts(src.left, 0, w - wr + offset);
        ExtractParts(src.right, offset, wr - offset);
        ConcatParts(ExtractCreate(src.left, 0, w - wr + offset), ExtractCreate(src.right, offset, wr - offset));
      }
    }
  }

  lemma TruncatedFolded(offset: Expr)
    requires WF(offset) && FoldedParts(offset)
    ensures Folded(ZExtCreate(offset, INT32))
  {
    hide ExtractCreate, Pow2;
    if INT32 < Width(offset) {
      ExtractParts(offset, 0, INT32);
    }
  }

  /** An offset of any width with folded parts may be used for an access of `n` bytes unless its low 32 bits are a
      constant out of bounds. */
  lemma FoldedAddressable(offset: Expr, n: nat, size: nat)
    requires WF(offset) && FoldedParts(offset) && n <= size <= Pow2(INT32)
    ensures Addressable(offset, n, size) <==> (ZExtCreate(offset, INT32).Constant? ==> ZExtCreate(offset, INT32).value + n <= size)
  {
    hide Pow2, Plus, ZExtCreate, FoldedParts;
    var off := ZExtCreate(offset, INT32);
    TruncatedFolded(offset);
    if !off.Constant? {
      forall idx | 0 <= idx < n ensures !Plus(off, idx).Constant? {
        StaysSymbolic(off, idx);
      }
    }
  }

  // ---------------------------------------------------------------- runs

  datatype Op =
    | ReadOp(offset: Expr, w: nat, little: bool)
    | WriteOp(offset: Expr, value: Expr, little: bool)
    | FlushForRead(base: nat, n: nat)
    | FlushForWrite(base: nat, n: nat)

  predicate WFOp(op: Op, size: nat)
    requires size <= Pow2(INT32)
  {
    match op
    case ReadOp(offset, w, _) => WF(offset) && ByteWidth(w) && Addressable(offset, NumBytes(w), size)
    case WriteOp(offset, value, _) =>
      WF(offset) && WF(value) && ByteWidth(Width(value)) && Addressable(offset, NumBytes(Width(value)), size)
    case FlushForRead(base, n) => base + n <= size
    case FlushForWrite(base, n) => base + n <= size
  }

  predicate WFOps(ops: seq<Op>, size: nat)
    requires size <= Pow2(INT32)
  {
    forall i | 0 <= i < |ops| :: WFOp(ops[i], size)
  }

  /** The accesses stay inside the object, as the executor's bounds check makes sure. */
  predicate Within(op: Op, size: nat, a: Assignment)
    requires size <= Pow2(INT32) && WFOp(op, size)
  {
    match op
    case ReadOp(offset, w, _) => InBounds(offset, NumBytes(w), size, a)
    case WriteOp(offset, value, _) => InBounds(offset, NumBytes(Width(value)), size, a)
    case _ => true
  }

  predicate AllWithin(ops: seq<Op>, size: nat, a: Assignment)
    requires size <= Pow2(INT32) && WFOps(ops, size)
  {
    forall i | 0 <= i < |ops| :: Within(ops[i], size, a)
  }

  /** What an operation does to a plain array: a write stores, everything else leaves it alone. */
  function Apply(s: seq<nat>, op: Op, a: Assignment): (r: seq<nat>)
    requires |s| <= Pow2(INT32) && WFOp(op, |s|) && Within(op, |s|, a)
    ensures |r| == |s|
  {
    if op.WriteOp? then Spliced(s, Wrap(Eval(op.offset, a), INT32), Eval(op.value, a), NumBytes(Width(op.value)), op.little)
    else s
  }

  /** The plain array after `ops`. */
  function Replay(s: seq<nat>, ops: seq<Op>, a: Assignment): (r: seq<nat>)
    requires |s| <= Pow2(INT32) && WFOps(ops, |s|) && AllWithin(ops, |s|, a)
    ensures |r| == |s|
  {
    if ops == [] then s
    else
      var n := |ops| - 1;
      Apply(Replay(s, ops[..n], a), ops[n], a)
  }

  /** `e` is what the read `op` finds in `s`. */
  ghost predicate Answers(e: Expr, s: seq<nat>, op: Op, a: Assignment)
    requires |s| <= Pow2(INT32) && WFOp(op, |s|) && Within(op, |s|, a) && WF(e)
  {
    op.ReadOp? ==> Width(e) == op.w && Eval(e, a) == ReadValue(s, Wrap(Eval(op.offset, a), INT32), op.w, op.little)
  }

  /** One operation, as on a plain array. */
  method Perform(os: ObjectState, op: Op) returns (e: Expr)
    requires os.Valid() && WFOp(op, os.size)
    modifies os`root, os`head, os`concreteStore, os`knownSymbolics, os`concreteMask, os`unflushedMask
    ensures os.Valid() && WF(e)
    ensures !op.WriteOp? ==> forall a: Assignment :: os.Contents(a) == old(os.Contents(a))
    ensures forall a: Assignment | Within(op, os.size, a) ::
      os.Contents(a) == Apply(old(os.Contents(a)), op, a) && Answers(e, old(os.Contents(a)), op, a)
  {
    hide ObjectState.Valid, ObjectState.Shape, ObjectState.Contents, Eval, WF, Width, Wrap, Pow2, Addressable, ReadValue, NumBytes, ByteWidth, Spliced;
    match op
    case ReadOp(offset, w, little) =>
      e := os.Read(offset, w, little);
    case WriteOp(offset, value, little) =>
      os.Write(offset, value, little);
      e := value;
    case FlushForRead(base, n) =>
      os.FlushRangeForRead(base, n);
      e := Nothing();
    case FlushForWrite(base, n) =>
      os.FlushRangeForWrite(base, n);
      e := Nothing();
  }

  function Nothing(): (e: Expr)
    ensures WF(e)
  {
    Pow2Byte();
    False
  }

  lemma Prefixes(ops: seq<Op>, size: nat)
    requires size <= Pow2(INT32) && WFOps(ops, size)
    ensures forall i | 0 <= i <= |ops| :: WFOps(ops[..i], size)
  {
    hide WFOp, Pow2;
  }

  lemma WithinPrefix(ops: seq<Op>, size: nat, i: nat, a: Assignment)
    requires size <= Pow2(INT32) && WFOps(ops, size) && i < |ops| && WFOps(ops[..i], size) && WFOps(ops[..i + 1], size)
    ensures AllWithin(ops[..i + 1], size, a) <==> AllWithin(ops[..i], size, a) && Within(ops[i], size, a)
  {
    hide WFOp, Within, Pow2;
    assert ops[..i + 1] == ops[..i] + [ops[i]];
    if AllWithin(ops[..i + 1], size, a) {
      forall k | 0 <= k < i ensures Within(ops[..i][k], size, a) {
        assert ops[..i][k] == ops[..i + 1][k];
      }
      assert ops[..i + 1][i] == ops[i];
    }
  }

  /** `e` is what operation `i` finds, if it and the operations before it stay inside. */
  ghost predicate AnswersAt(e: Expr, s: seq<nat>, ops: seq<Op>, i: nat, a: Assignment)
    requires |s| <= Pow2(INT32) && WFOps(ops, |s|) && i < |ops| && WF(e)
  {
    Prefixes(ops, |s|);
    WithinPrefix(ops, |s|, i, a);
    AllWithin(ops[..i + 1], |s|, a) ==> Answers(e, Replay(s, ops[..i], a), ops[i], a)
  }

  /** After any sequence of reads, writes and flushes the object holds the bytes of the plain array, and
      every read evaluates to what the array held at that point. */
  method Run(os: ObjectState, ops: seq<Op>) returns (answers: seq<Expr>)
    requires os.Valid() && WFOps(ops, os.size)
    modifies os
    ensures os.Valid() && |answers| == |ops| && forall i | 0 <= i < |ops| :: WF(answers[i])
    ensures forall a: Assignment | AllWithin(ops, os.size, a) :: os.Contents(a) == Replay(old(os.Contents(a)), ops, a)
    ensures forall a: Assignment, i | 0 <= i < |ops| :: AnswersAt(answers[i], old(os.Contents(a)), ops, i, a)
  {
    hide ObjectState.Valid, ObjectState.Shape, ObjectState.Contents, WF, WFOp, Within, Apply, Answers, Pow2, AllWithin, WFOps;
    answers := [];
    Prefixes(ops, os.size);
    for k := 0 to |ops|
      invariant os.Valid() && |answers| == k && forall i | 0 <= i < k :: WF(answers[i])
      invariant forall a: Assignment | AllWithin(ops[..k], os.size, a) :: os.Contents(a) == Replay(old(os.Contents(a)), ops[..k], a)
      invariant forall a: Assignment, i | 0 <= i < k :: AnswersAt(answers[i], old(os.Contents(a)), ops, i, a)
    {
      OpAt(ops, os.size, k);
      assert ops[..k + 1][..k] == ops[..k];
      var e := Perform(os, ops[k]);
      forall a: Assignment
        ensures AnswersAt(e, old(os.Contents(a)), ops, k, a)
        ensures AllWithin(ops[..k + 1], os.size, a) ==> os.Contents(a) == Replay(old(os.Contents(a)), ops[..k + 1], a)
      {
        WithinPrefix(ops, os.size, k, a);
      }
      answers := answers + [e];
    }
    assert ops[..|ops|] == ops;
  }

  lemma OpAt(ops: seq<Op>, size: nat, k: nat)
    requires size <= Pow2(INT32) && WFOps(ops, size) && k < |ops|
    ensures WFOp(ops[k], size)
  {
  }
}
