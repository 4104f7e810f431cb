/** What each binary operation means, stated without the functions that compute it: quotients by the division
law, bit-wise operations and shifts by the bits of their operands, signed order by that of unsigned values.
*/
module BinaryMeanings {
  import opened BitVector
  import opened Expressions

  // ---------------------------------------------------------------- division

  /** Division toward zero: the remainder is smaller than the divisor and has the sign of the dividend. */
  predicate TruncDivision(x: int, y: int, q: int, r: int) {
    && x == y * q + r
    && (if y > 0 then -y < r < y else y < r < -y)
    && (x >= 0 ==> r >= 0) && (x <= 0 ==> r <= 0)
  }

  lemma TruncDivides(x: int, y: int)
    requires y != 0
    ensures TruncDivision(x, y, TruncDiv(x, y), TruncRem(x, y))
  {
    var m, n := if y > 0 then y else -y, if x >= 0 then x else -x;
    var p, q := n / m, TruncDiv(x, y);
    assert n == m * p + n % m;
    Products(m, p);
    assert q == if (x >= 0) == (y > 0) then p else -p;
    assert y * q == if x >= 0 then m * p else -(m * p);
    Products(y, q);
  }

  lemma Products(m: int, p: int)
    ensures m * p == p * m && m * -p == -(m * p) && -m * p == -(m * p) && -m * -p == m * p
  {
  }

  lemma TruncDivisionUnique(x: int, y: int, q: int, r: int)
    requires y != 0 && TruncDivision(x, y, q, r)
    ensures q == TruncDiv(x, y) && r == TruncRem(x, y)
  {
    TruncDivides(x, y);
    SameDivision(x, y, q, r, TruncDiv(x, y), TruncRem(x, y));
  }

  lemma SameDivision(x: int, y: int, q: int, r: int, q': int, r': int)
    requires y != 0 && TruncDivision(x, y, q, r) && TruncDivision(x, y, q', r')
    ensures q == q' && r == r'
  {
    var m := if y > 0 then y else -y;
    var p, p' := if y > 0 then q else -q, if y > 0 then q' else -q';
    assert m * p == y * q && m * p' == y * q';
    if x >= 0 {
      QuotientUnique(p, r, p', r', m);
    } else {
      assert m * -p == -(m * p) && m * -p' == -(m * p');
      QuotientUnique(-p, -r, -p', -r', m);
    }
  }

  // ---------------------------------------------------------------- bits

  /** Bit `k` of `x` is one. */
  predicate BitSet(x: int, k: nat) {
    Slice(x, k, 1) == 1
  }

  lemma BitValue(x: int)
    ensures BitSet(x, 0) <==> x % 2 == 1
  {
    SliceFromZero(x, 1);
    Pow2Byte();
  }

  lemma NextBit(x: int, k: nat)
    ensures BitSet(x, k + 1) <==> BitSet(x / 2, k)
  {
    TwoSteps(x, 1, k);
    Pow2Byte();
  }

  lemma ZeroBit(k: nat)
    ensures !BitSet(0, k)
  {
    HighWrapUnique(0, k, 0, 0);
  }

  lemma {:induction false} BitwiseBits(x: nat, y: nat, k: nat)
    ensures BitSet(BitAnd(x, y), k) <==> BitSet(x, k) && BitSet(y, k)
    ensures BitSet(BitOr(x, y), k) <==> BitSet(x, k) || BitSet(y, k)
    ensures BitSet(BitXor(x, y), k) <==> BitSet(x, k) != BitSet(y, k)
  {
    hide BitSet;
    ZeroBit(k);
    if x > 0 && y > 0 {
      var r, s, t := BitAnd(x, y), BitOr(x, y), BitXor(x, y);
      assert r / 2 == BitAnd(x / 2, y / 2) && s / 2 == BitOr(x / 2, y / 2) && t / 2 == BitXor(x / 2, y / 2);
      if k == 0 {
        BitValue(x);
        BitValue(y);
        BitValue(r);
        BitValue(s);
        BitValue(t);
      } else {
        NextBit(x, k - 1);
        NextBit(y, k - 1);
        NextBit(r, k - 1);
        NextBit(s, k - 1);
        NextBit(t, k - 1);
        BitwiseBits(x / 2, y / 2, k - 1);
      }
    }
  }

  /** A value is determined by its bits. */
  lemma {:induction false} SameBits(x: nat, y: nat, w: nat)
    requires x < Pow2(w) && y < Pow2(w) && forall k | 0 <= k < w :: BitSet(x, k) <==> BitSet(y, k)
    ensures x == y
  {
    hide BitSet;
    if w > 0 {
      BitValue(x);
      BitValue(y);
      forall k | 0 <= k < w - 1 ensures BitSet(x / 2, k) <==> BitSet(y / 2, k) {
        NextBit(x, k);
        NextBit(y, k);
      }
      SameBits(x / 2, y / 2, w - 1);
    }
  }

  lemma ShlBits(x: nat, y: nat, w: nat, k: nat)
    requires k < w
    ensures BitSet(Wrap(x * Pow2(y), w), k) <==> k >= y && BitSet(x, k - y)
  {
    hide Slice, Pow2, Wrap;
    SliceOfWrap(x * Pow2(y), w, k, 1);
    if y <= k {
      SliceHigh(x, 0, y, k, 1);
    } else {
      SliceLow(x, 0, y, k, 1);
      ZeroBit(k);
    }
  }

  lemma ShrBits(x: int, y: nat, k: nat)
    ensures BitSet(High(x, y), k) <==> BitSet(x, y + k)
  {
    TwoSteps(x, y, k);
  }

  lemma AShrBits(x: nat, y: nat, w: nat, k: nat)
    requires k < w && x < Pow2(w)
    ensures BitSet(Wrap(High(ToSigned(x, w), y), w), k) <==> if y + k < w then BitSet(x, y + k) else BitSet(x, w - 1)
  {
    hide Wrap, High, Pow2, ToSigned, Slice;
    SliceOfWrap(High(ToSigned(x, w), y), w, k, 1);
    ShrBits(ToSigned(x, w), y, k);
    if y + k < w {
      ArithmeticShiftSlice(x, w, y + k, 1);
    } else {
      SignBit(x, w, y + k);
    }
  }

  /** From the sign bit up, a signed value has copies of it. */
  lemma SignBit(x: nat, w: nat, k: nat)
    requires 0 < w <= k && x < Pow2(w)
    ensures BitSet(ToSigned(x, w), k) <==> BitSet(x, w - 1)
  {
    hide Wrap, High;
    Pow2Monotonic(w, k);
    Pow2Byte();
    if x < Pow2(w - 1) {
      HighWrapUnique(x, k, 0, x);
      HighWrapUnique(x, w - 1, 0, x);
      WrapSmall(0, 1);
    } else {
      HighWrapUnique(x - Pow2(w), k, -1, x - Pow2(w) + Pow2(k));
      HighWrapUnique(x, w - 1, 1, x - Pow2(w - 1));
      WrapSmall(1, 1);
      HighWrapUnique(-1, 1, -1, 1);
    }
  }

  // ---------------------------------------------------------------- the meaning of an operation

  /** `v` is the result of the operation; what division by zero gives is left open. A shift by the width or more
      leaves zero, or copies of the sign bit. */
  ghost predicate Means(op: BinOp, x: nat, y: nat, w: nat, v: nat)
    requires w > 0
  {
    match op
    case Add => v == (x + y) % Pow2(w)
    case Sub => v == (x - y) % Pow2(w)
    case Mul => v == (x * y) % Pow2(w)
    case UDiv => y != 0 ==> y * v <= x < y * (v + 1)
    case URem => y != 0 ==> v < y && (x - v) % y == 0
    case SDiv => y != 0 ==> exists q, r :: TruncDivision(ToSigned(x, w), ToSigned(y, w), q, r) && v == Wrap(q, w)
    case SRem => y != 0 ==> exists q, r :: TruncDivision(ToSigned(x, w), ToSigned(y, w), q, r) && v == Wrap(r, w)
    case And => forall k | 0 <= k < w :: BitSet(v, k) <==> BitSet(x, k) && BitSet(y, k)
    case Or => forall k | 0 <= k < w :: BitSet(v, k) <==> BitSet(x, k) || BitSet(y, k)
    case Xor => forall k | 0 <= k < w :: BitSet(v, k) <==> BitSet(x, k) != BitSet(y, k)
    case Shl => forall k | 0 <= k < w :: BitSet(v, k) <==> k >= y && BitSet(x, k - y)
    case LShr => forall k | 0 <= k < w :: BitSet(v, k) <==> y + k < w && BitSet(x, y + k)
    case AShr => forall k | 0 <= k < w :: BitSet(v, k) <==> if y + k < w then BitSet(x, y + k) else BitSet(x, w - 1)
  }

  /** The value computed is the one the operation means. */
  lemma BinaryMeans(op: BinOp, x: nat, y: nat, w: nat)
    requires w > 0 && x < Pow2(w) && y < Pow2(w)
    ensures Means(op, x, y, w, EvalBinary(op, x, y, w))
  {
    hide BitSet, TruncDivision, TruncDiv, TruncRem, Pow2, ToSigned, High;
    match op
    case UDiv | URem => DivisionMeans(x, y);
    case SDiv | SRem =>
      if y != 0 {
        SignedZero(y, w);
        TruncDivides(ToSigned(x, w), ToSigned(y, w));
      }
    case Shl | LShr | AShr => ShiftMeans(op, x, y, w);
    case And | Or | Xor =>
      forall k | 0 <= k < w
        ensures BitSet(BitAnd(x, y), k) <==> BitSet(x, k) && BitSet(y, k)
        ensures BitSet(BitOr(x, y), k) <==> BitSet(x, k) || BitSet(y, k)
        ensures BitSet(BitXor(x, y), k) <==> BitSet(x, k) != BitSet(y, k)
      {
        BitwiseBits(x, y, k);
      }
    case Add | Sub | Mul =>
  }

  lemma ShiftMeans(op: BinOp, x: nat, y: nat, w: nat)
    requires w > 0 && x < Pow2(w) && y < Pow2(w) && op in {Shl, LShr, AShr}
    ensures Means(op, x, y, w, EvalBinary(op, x, y, w))
  {
    hide BitSet, Pow2, ToSigned, High, Wrap;
    forall k | 0 <= k < w
      ensures op.Shl? ==> (BitSet(EvalBinary(op, x, y, w), k) <==> k >= y && BitSet(x, k - y))
      ensures op.LShr? ==> (BitSet(EvalBinary(op, x, y, w), k) <==> y + k < w && BitSet(x, y + k))
      ensures op.AShr? ==> (BitSet(EvalBinary(op, x, y, w), k) <==> if y + k < w then BitSet(x, y + k) else BitSet(x, w - 1))
    {
      ShlBits(x, y, w, k);
      ShrBits(x, y, k);
      AShrBits(x, y, w, k);
      if y + k >= w {
        NoBitAbove(x, w, y + k);
      }
    }
  }

  lemma NoBitAbove(x: nat, w: nat, k: nat)
    requires x < Pow2(w) && w <= k
    ensures !BitSet(x, k)
  {
    hide Wrap, High;
    Pow2Monotonic(w, k);
    HighWrapUnique(x, k, 0, x);
    Pow2Byte();
    WrapSmall(0, 1);
  }

  lemma DivisionMeans(x: nat, y: nat)
    ensures y != 0 ==> y * (x / y) <= x < y * (x / y + 1) && x % y < y && (x - x % y) % y == 0
  {
    if y != 0 {
      Distribute(y, x / y, 1);
      ModUnique(x - x % y, x / y, 0, y);
    }
  }

  lemma SignedZero(y: nat, w: nat)
    requires w > 0 && y < Pow2(w)
    ensures ToSigned(y, w) == 0 <==> y == 0
  {
  }

  /** And no other value of the width is meant, unless the divisor is zero. */
  lemma MeansUnique(op: BinOp, x: nat, y: nat, w: nat, v: nat)
    requires w > 0 && x < Pow2(w) && y < Pow2(w) && v < Pow2(w) && Means(op, x, y, w, v)
    requires op in {UDiv, SDiv, URem, SRem} ==> y != 0
    ensures v == EvalBinary(op, x, y, w)
  {
    hide BitSet, TruncDivision, TruncDiv, TruncRem, Pow2, ToSigned, High;
    BinaryMeans(op, x, y, w);
    var u := EvalBinary(op, x, y, w);
    if op in {And, Or, Xor, Shl, LShr, AShr} {
      SameBits(u, v, w);
    } else if op in {UDiv, URem} {
      DivisionUnique(x, y, v);
    } else if op in {SDiv, SRem} {
      SignedZero(y, w);
      var q, r :| TruncDivision(ToSigned(x, w), ToSigned(y, w), q, r) && v == Wrap(if op.SDiv? then q else r, w);
      TruncDivisionUnique(ToSigned(x, w), ToSigned(y, w), q, r);
    }
  }

  lemma DivisionUnique(x: nat, y: nat, v: nat)
    requires y != 0
    ensures y * v <= x < y * (v + 1) ==> v == x / y
    ensures v < y && (x - v) % y == 0 ==> v == x % y
  {
    Distribute(y, v, 1);
    if y * v <= x < y * (v + 1) {
      ModUnique(x, v, x - y * v, y);
    }
    if v < y && (x - v) % y == 0 {
      ModUnique(x, (x - v) / y, v, y);
    }
  }

  /** Read as signed, the results are the quotient toward zero and its remainder; the one quotient that does not
      fit is that of the least value by minus one. */
  lemma SignedResults(x: nat, y: nat, w: nat)
    requires w > 0 && x < Pow2(w) && 0 < y < Pow2(w)
    ensures var q, r := ToSigned(EvalBinary(SDiv, x, y, w), w), ToSigned(EvalBinary(SRem, x, y, w), w);
      var least := ToSigned(x, w) + Pow2(w - 1) == 0 && ToSigned(y, w) == -1;
      && (!least ==> TruncDivision(ToSigned(x, w), ToSigned(y, w), q, r))
      && (least ==> q == ToSigned(x, w) && r == 0)
  {
    hide TruncDivision, TruncDiv, TruncRem, ToSigned;
    SignedZero(y, w);
    var q, r := TruncDiv(ToSigned(x, w), ToSigned(y, w)), TruncRem(ToSigned(x, w), ToSigned(y, w));
    TruncDivides(ToSigned(x, w), ToSigned(y, w));
    TruncBounds(ToSigned(x, w), ToSigned(y, w), q, r, Pow2(w - 1)) by {
      SignedRange(x, w);
      SignedRange(y, w);
    }
    FitsSigned(r, w);
    if q < Pow2(w - 1) {
      FitsSigned(q, w);
    } else {
      assert q == Pow2(w - 1);
      WrapSmall(q, w);
      LeastSigned(w);
    }
  }

  /** The signed reading of a pattern is the value in the signed range with that pattern. */
  lemma SignedRange(x: nat, w: nat)
    requires w > 0 && x < Pow2(w)
    ensures 0 <= ToSigned(x, w) + Pow2(w - 1) < 2 * Pow2(w - 1)
    ensures Wrap(ToSigned(x, w), w) == x
  {
    if x < Pow2(w - 1) {
      WrapSmall(x, w);
    } else {
      ModUnique(x - Pow2(w), -1, x, Pow2(w));
    }
  }

  lemma LeastSigned(w: nat)
    requires w > 0
    ensures ToSigned(Pow2(w - 1), w) + Pow2(w - 1) == 0
  {
  }

  /** A value in the signed range is read back from its pattern. */
  lemma FitsSigned(v: int, w: nat)
    requires w > 0 && 0 <= v + Pow2(w - 1) < 2 * Pow2(w - 1)
    ensures ToSigned(Wrap(v, w), w) == v
  {
    if v >= 0 {
      WrapSmall(v, w);
    } else {
      ModUnique(v, -1, v + Pow2(w), Pow2(w));
    }
  }

  lemma TruncBounds(x: int, y: int, q: int, r: int, m: int)
    requires m > 0 && -m <= x < m && -m <= y < m && y != 0 && TruncDivision(x, y, q, r)
    ensures -m <= q <= m && -m <= r < m
    ensures q == m <==> x == -m && y == -1
    ensures x == -m && y == -1 ==> r == 0
  {
    TruncDivisionUnique(x, y, q, r);
    if y == 1 || y == -1 {
      assert q == y * x && r == 0;
    } else {
      HalfQuotient(x, y, q, r);
    }
  }

  lemma HalfQuotient(x: int, y: int, q: int, r: int)
    requires (y > 1 || y < -1) && TruncDivision(x, y, q, r)
    ensures x >= 0 ==> -x <= 2 * q <= x
    ensures x <= 0 ==> x <= 2 * q <= -x
  {
    var m, p := if y > 0 then y else -y, if y > 0 then q else -q;
    assert m * p == y * q;
    if x >= 0 {
      HalfNatural(x, m, p, r);
    } else {
      assert m * -p == -(m * p);
      HalfNatural(-x, m, -p, -r);
    }
  }

  lemma HalfNatural(x: nat, m: nat, p: int, r: nat)
    requires m > 1 && r < m && x == m * p + r
    ensures 0 <= 2 * p <= x
  {
    if p < 0 {
      assert m * -p == -(m * p);
      AtLeastFactor(-p, m);
    } else {
      Distribute(p, 2, m - 2);
      assert p * (m - 2) >= 0;
    }
  }

  // ---------------------------------------------------------------- comparisons

  /** `x` with the sign bit flipped. */
  function SignFlipped(x: nat, w: nat): nat
    requires w > 0
  {
    (x + Pow2(w - 1)) % Pow2(w)
  }

  /** The order of unsigned values; and that of signed ones, which is the same with the sign bits flipped. */
  predicate Compares(op: CmpOp, x: nat, y: nat, w: nat)
    requires w > 0
  {
    var x', y' := SignFlipped(x, w), SignFlipped(y, w);
    match op
    case Eq => x == y
    case Ne => x != y
    case Ult => x < y
    case Ule => !(y < x)
    case Ugt => y < x
    case Uge => !(x < y)
    case Slt => x' < y'
    case Sle => !(y' < x')
    case Sgt => y' < x'
    case Sge => !(x' < y')
  }

  lemma FlippedValue(x: nat, w: nat)
    requires w > 0 && x < Pow2(w)
    ensures SignFlipped(x, w) == ToSigned(x, w) + Pow2(w - 1)
  {
    if x < Pow2(w - 1) {
      ModUnique(x + Pow2(w - 1), 0, x + Pow2(w - 1), Pow2(w));
    } else {
      ModUnique(x + Pow2(w - 1), 1, x - Pow2(w - 1), Pow2(w));
    }
  }

  /** The comparison computed is the one meant. */
  lemma CompareMeans(op: CmpOp, x: nat, y: nat, w: nat)
    requires w > 0 && x < Pow2(w) && y < Pow2(w)
    ensures EvalCompare(op, x, y, w) == if Compares(op, x, y, w) then 1 else 0
  {
    hide Pow2, ToSigned, SignFlipped;
    FlippedValue(x, w);
    FlippedValue(y, w);
  }
}
