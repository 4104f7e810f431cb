/** The expressions a memory object gives for its base, for offsets into it and for bounds checks. */
module PointerBounds {
  import opened BitVector
  import opened Expressions
  import opened SmartConstructors
  import opened ConstructorSoundness

  /** `size` bytes from `address` on. */
  datatype MemoryObject = MemoryObject(address: nat, size: nat)

  /** An object of no bytes still takes up its address. */
  function Extent(mo: MemoryObject): nat {
    if mo.size == 0 then 1 else mo.size
  }

  /** The object does not wrap around the end of an address space of `w` bits. */
  predicate NoWrap(mo: MemoryObject, w: nat) {
    0 < w && mo.address + Extent(mo) <= Pow2(w) && mo.size < Pow2(w)
  }

  /** The address `v` lies in the object. */
  predicate Inside(mo: MemoryObject, v: nat) {
    mo.address <= v < mo.address + Extent(mo)
  }

  function BaseExpr(mo: MemoryObject, w: nat): (e: Expr)
    requires NoWrap(mo, w)
    ensures OfWidth(e, w)
  {
    Constant(mo.address, w)
  }

  function OffsetExpr(mo: MemoryObject, pointer: Expr): (e: Expr)
    requires WF(pointer) && NoWrap(mo, Width(pointer))
    ensures OfWidth(e, Width(pointer))
  {
    SubCreate(pointer, BaseExpr(mo, Width(pointer)))
  }

  function BoundsCheckOffset(mo: MemoryObject, offset: Expr): (e: Expr)
    requires WF(offset) && NoWrap(mo, Width(offset))
    ensures OfWidth(e, BOOL)
  {
    var w := Width(offset);
    if mo.size == 0 then EqCreate(offset, Zero(w)) else UltCreate(offset, Constant(mo.size, w))
  }

  function BoundsCheckPointer(mo: MemoryObject, pointer: Expr): (e: Expr)
    requires WF(pointer) && NoWrap(mo, Width(pointer))
    ensures OfWidth(e, BOOL)
  {
    BoundsCheckOffset(mo, OffsetExpr(mo, pointer))
  }

  /** The check for an access of several bytes; the limit is computed in 32-bit arithmetic. */
  function BoundsCheckBytes(mo: MemoryObject, offset: Expr, bytes: nat): (e: Expr)
    requires WF(offset) && NoWrap(mo, Width(offset)) && mo.size < Pow2(INT32) && INT32 <= Width(offset)
    ensures OfWidth(e, BOOL)
  {
    if bytes <= mo.size then LimitFits(mo, bytes, Width(offset)); UltCreate(offset, Constant(Limit(mo, bytes), Width(offset)))
    else BoolWF(); False
  }

  function Limit(mo: MemoryObject, bytes: nat): nat
    requires bytes <= mo.size
  {
    Wrap(mo.size - bytes + 1, INT32)
  }

  lemma BoolWF()
    ensures OfWidth(False, BOOL)
  {
    Pow2Byte();
  }

  lemma LimitFits(mo: MemoryObject, bytes: nat, w: nat)
    requires bytes <= mo.size && INT32 <= w
    ensures Limit(mo, bytes) < Pow2(w)
  {
    hide Pow2;
    Pow2Monotonic(INT32, w);
  }

  // ---------------------------------------------------------------- what the checks mean

  lemma OffsetSound(mo: MemoryObject, pointer: Expr, a: Assignment)
    requires WF(pointer) && NoWrap(mo, Width(pointer))
    ensures Eval(OffsetExpr(mo, pointer), a) == Wrap(Eval(pointer, a) - mo.address, Width(pointer))
  {
    hide Eval, SubCreate, Wrap, Pow2;
    var base := BaseExpr(mo, Width(pointer));
    SubSound(pointer, base, a);
    ConstantNode(base, a);
  }

  lemma UltHolds(l: Expr, r: Expr, a: Assignment)
    requires SameWidth(l, r)
    ensures Holds(UltCreate(l, r), a) <==> Eval(l, a) < Eval(r, a)
    ensures Holds(UleCreate(l, r), a) <==> Eval(l, a) <= Eval(r, a)
  {
    hide Eval, UltCreate, UleCreate, Pow2;
    OrderSound(l, r, a);
    CompareNode(Ult, l, r, a);
    CompareNode(Ule, l, r, a);
  }

  lemma OffsetCheckSound(mo: MemoryObject, offset: Expr, a: Assignment)
    requires WF(offset) && NoWrap(mo, Width(offset))
    ensures Holds(BoundsCheckOffset(mo, offset), a) <==> Eval(offset, a) < Extent(mo)
  {
    hide Eval, UltCreate, EqCreate, Pow2;
    var w := Width(offset);
    if mo.size == 0 {
      EqSound(offset, Zero(w), a);
      ConstantNode(Zero(w), a);
    } else {
      UltHolds(offset, Constant(mo.size, w), a);
      ConstantNode(Constant(mo.size, w), a);
    }
  }

  /** The wrapped difference is below the extent exactly when the address lies in the object. */
  lemma WrappedOffset(mo: MemoryObject, v: nat, w: nat)
    requires NoWrap(mo, w) && v < Pow2(w)
    ensures Wrap(v - mo.address, w) < Extent(mo) <==> Inside(mo, v)
    ensures Inside(mo, v) ==> Wrap(v - mo.address, w) == v - mo.address
  {
    hide Pow2;
    if v < mo.address {
      ModShift(v - mo.address, 1, Pow2(w));
      WrapSmall(v - mo.address + Pow2(w), w);
    } else {
      WrapSmall(v - mo.address, w);
    }
  }

  /** The bounds check of a pointer says exactly that it lies in the object. */
  lemma PointerCheckSound(mo: MemoryObject, pointer: Expr, a: Assignment)
    requires WF(pointer) && NoWrap(mo, Width(pointer))
    ensures Holds(BoundsCheckPointer(mo, pointer), a) <==> Inside(mo, Eval(pointer, a))
  {
    hide Eval, BoundsCheckOffset, OffsetExpr, Wrap, Pow2;
    OffsetSound(mo, pointer, a);
    OffsetCheckSound(mo, OffsetExpr(mo, pointer), a);
    WrappedOffset(mo, Eval(pointer, a), Width(pointer));
  }

  /** The bounds check of an access says that all its bytes lie in the object; the one exception is an
      access of no bytes to the largest object, whose limit wraps to zero. */
  lemma BytesCheckSound(mo: MemoryObject, offset: Expr, bytes: nat, a: Assignment)
    requires WF(offset) && NoWrap(mo, Width(offset)) && mo.size < Pow2(INT32) && INT32 <= Width(offset)
    ensures Holds(BoundsCheckBytes(mo, offset, bytes), a) <==>
      Eval(offset, a) + bytes <= mo.size && !(bytes == 0 && mo.size + 1 == Pow2(INT32))
  {
    hide Eval, UltCreate, Pow2, Wrap;
    if bytes <= mo.size {
      LimitFits(mo, bytes, Width(offset));
      var limit := Constant(Limit(mo, bytes), Width(offset));
      UltHolds(offset, limit, a);
      ConstantNode(limit, a);
      if mo.size - bytes + 1 < Pow2(INT32) {
        WrapSmall(mo.size - bytes + 1, INT32);
      } else {
        ModShift(0, 1, Pow2(INT32));
        WrapSmall(0, INT32);
        assert Limit(mo, bytes) == 0 by { WholeTurn(); }
      }
    } else {
      BoolWF();
      ConstantNode(False, a);
    }
  }

  lemma WholeTurn()
    ensures Wrap(Pow2(INT32), INT32) == 0
  {
    hide Pow2;
  }
}
