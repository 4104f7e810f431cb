/** Bit-vector arithmetic on naturals: the meaning of LLVM's `APInt` operations.

A value of width `w` is a natural number below `Pow2(w)`. The bit-wise operators are
defined bit by bit, so that the lemmas below are about every width.
*/
module BitVector {

  function Pow2(n: nat): (r: nat)
    ensures r > 0
  {
    if n == 0 then 1 else 2 * Pow2(n - 1)
  }

  lemma {:induction false} Pow2Add(a: nat, b: nat)
    ensures Pow2(a + b) == Pow2(a) * Pow2(b)
  {
    if a == 0 {
      assert Pow2(a) * Pow2(b) == Pow2(b);
    } else {
      Pow2Add(a - 1, b);
      assert Pow2(a + b) == 2 * Pow2(a + b - 1);
      assert 2 * (Pow2(a - 1) * Pow2(b)) == (2 * Pow2(a - 1)) * Pow2(b);
    }
  }

  lemma {:induction false} Pow2Monotonic(a: nat, b: nat)
    requires a <= b
    ensures Pow2(a) <= Pow2(b)
    decreases b - a
  {
    if a < b {
      Pow2Monotonic(a + 1, b);
    }
  }

  /** Pow2(8) and its neighbours, unfolded once for the byte-level proofs. */
  lemma Pow2Byte()
    ensures Pow2(1) == 2 && Pow2(8) == 256
  {
    assert Pow2(4) == 16;
    Pow2Add(4, 4);
  }

  /** `x` modulo 2^w: what storing `x` in `w` bits keeps. */
  function Wrap(x: int, w: nat): (r: nat)
    ensures r < Pow2(w)
  {
    x % Pow2(w)
  }

  /** What is left of `x` once its low `n` bits are dropped: the floor of x / 2^n. */
  function High(x: int, n: nat): (r: int)
    ensures x >= 0 ==> r >= 0
  {
    FloorNonNegative(x, Pow2(n));
    x / Pow2(n)
  }

  lemma FloorNonNegative(x: int, m: int)
    requires m > 0
    ensures x >= 0 ==> x / m >= 0
  {
  }

  /** Two's complement reading of the `w`-bit pattern `x`. */
  function ToSigned(x: nat, w: nat): (r: int)
    requires w > 0
  {
    if x < Pow2(w - 1) then x else x - Pow2(w)
  }

  /** Division truncating toward zero, as `APInt::sdiv` does. */
  function TruncDiv(x: int, y: int): int
    requires y != 0
  {
    if x >= 0 then (if y > 0 then x / y else -(x / -y))
    else (if y > 0 then -(-x / y) else -x / -y)
  }

  function TruncRem(x: int, y: int): int
    requires y != 0
  {
    x - TruncDiv(x, y) * y
  }

  // ---------------------------------------------------------------- modular arithmetic

  lemma Distribute(a: int, b: int, c: int)
    ensures a * (b + c) == a * b + a * c && a * (b - c) == a * b - a * c
  {
  }

  lemma Associate(a: int, b: int, c: int)
    ensures a * (b * c) == (a * b) * c
  {
  }

  lemma AtLeastFactor(d: int, m: int)
    requires d >= 1 && m > 0
    ensures m * d >= m
  {
  }

  lemma QuotientUnique(q: int, r: int, q': int, r': int, m: int)
    requires 0 <= r < m && 0 <= r' < m && m * q + r == m * q' + r'
    ensures q == q' && r == r'
  {
    Distribute(m, q, q');
    if q > q' {
      AtLeastFactor(q - q', m);
    } else if q < q' {
      Distribute(m, q', q);
      AtLeastFactor(q' - q, m);
    }
  }

  lemma ModUnique(x: int, q: int, r: int, m: int)
    requires m > 0 && 0 <= r < m && x == m * q + r
    ensures x % m == r && x / m == q
  {
    QuotientUnique(x / m, x % m, q, r, m);
  }

  lemma ModShift(x: int, k: int, m: int)
    requires m > 0
    ensures (x + m * k) % m == x % m
    ensures (x + m * k) / m == x / m + k
  {
    Distribute(m, x / m, k);
    ModUnique(x + m * k, x / m + k, x % m, m);
  }

  /** Wrapping an operand before adding or subtracting does not change the wrapped result. */
  lemma WrapAbsorbs(x: int, y: int, w: nat)
    ensures Wrap(Wrap(x, w) + y, w) == Wrap(x + y, w)
    ensures Wrap(y + Wrap(x, w), w) == Wrap(x + y, w)
    ensures Wrap(y - Wrap(x, w), w) == Wrap(y - x, w)
    ensures Wrap(Wrap(x, w) - y, w) == Wrap(x - y, w)
  {
    var m := Pow2(w);
    ModAbsorbs(x, y, x / m, x % m, m);
  }

  lemma ModAbsorbs(x: int, y: int, q: int, r: int, m: int)
    requires m > 0 && x == m * q + r
    ensures (r + y) % m == (x + y) % m && (y - r) % m == (y - x) % m && (r - y) % m == (x - y) % m
  {
    Congruent(r + y, x + y, q, m);
    Congruent(r - y, x - y, q, m);
    Distribute(m, 0, q);
    Congruent(y - r, y - x, -q, m);
  }

  lemma Congruent(x: int, y: int, q: int, m: int)
    requires m > 0 && y == x + m * q
    ensures x % m == y % m
  {
    ModShift(x, q, m);
  }

  lemma WrapSmall(x: int, w: nat)
    requires 0 <= x < Pow2(w)
    ensures Wrap(x, w) == x
  {
    ModUnique(x, 0, x, Pow2(w));
  }

  // ---------------------------------------------------------------- bit-wise operators

  function BitAnd(x: nat, y: nat): (r: nat)
    ensures r <= x && r <= y
  {
    if x == 0 || y == 0 then 0
    else 2 * BitAnd(x / 2, y / 2) + (if x % 2 == 1 && y % 2 == 1 then 1 else 0)
  }

  function BitOr(x: nat, y: nat): (r: nat)
    ensures x <= r && y <= r
  {
    if x == 0 then y else if y == 0 then x
    else 2 * BitOr(x / 2, y / 2) + (if x % 2 == 1 || y % 2 == 1 then 1 else 0)
  }

  function BitXor(x: nat, y: nat): (r: nat)
  {
    if x == 0 then y else if y == 0 then x
    else 2 * BitXor(x / 2, y / 2) + (if x % 2 != y % 2 then 1 else 0)
  }

  lemma {:induction false} BitOpsBound(x: nat, y: nat, w: nat)
    requires x < Pow2(w) && y < Pow2(w)
    ensures BitAnd(x, y) < Pow2(w) && BitOr(x, y) < Pow2(w) && BitXor(x, y) < Pow2(w)
  {
    if w > 0 && x > 0 && y > 0 {
      BitOpsBound(x / 2, y / 2, w - 1);
    }
  }

  lemma {:induction false} BitOpsCommute(x: nat, y: nat)
    ensures BitAnd(x, y) == BitAnd(y, x) && BitOr(x, y) == BitOr(y, x) && BitXor(x, y) == BitXor(y, x)
  {
    if x > 0 && y > 0 {
      BitOpsCommute(x / 2, y / 2);
    }
  }

  /** All-ones is neutral for And and absorbing for Or. */
  lemma {:induction false} AllOnes(x: nat, w: nat)
    requires x < Pow2(w)
    ensures BitAnd(x, Pow2(w) - 1) == x && BitOr(x, Pow2(w) - 1) == Pow2(w) - 1
  {
    if w > 0 {
      var h := Pow2(w - 1);
      assert (2 * h - 1) / 2 == h - 1 && (2 * h - 1) % 2 == 1;
      AllOnes(x / 2, w - 1);
      if x > 0 && h == 1 {
        assert x == 1;
      }
    }
  }

  // ---------------------------------------------------------------- slices of a value

  /** Bits `off .. off + w` of `v`. */
  function Slice(v: int, off: nat, w: nat): (r: nat)
    ensures r < Pow2(w)
  {
    Wrap(High(v, off), w)
  }

  /** `hi` above the `wl` bits of `lo`. */
  function Join(hi: nat, lo: nat, wh: nat, wl: nat): (r: nat)
    requires hi < Pow2(wh) && lo < Pow2(wl)
    ensures r < Pow2(wh + wl)
  {
    JoinBound(hi, lo, wh, wl);
    hi * Pow2(wl) + lo
  }

  lemma JoinBound(hi: nat, lo: nat, wh: nat, wl: nat)
    requires hi < Pow2(wh) && lo < Pow2(wl)
    ensures hi * Pow2(wl) + lo < Pow2(wh + wl)
  {
    hide Pow2;
    Pow2Add(wh, wl);
    Distribute(Pow2(wl), Pow2(wh) - 1 - hi, hi + 1);
    Distribute(Pow2(wl), hi, 1);
    assert Pow2(wl) * (Pow2(wh) - 1 - hi) >= 0;
  }

  lemma MixedRadixDigits(v: int, a: nat, b: nat, d0: nat, d1: nat, d2: int)
    requires d0 < a && d1 < b && v == a * (b * d2 + d1) + d0
    ensures a * b > 0 && v / (a * b) == d2 && v % (a * b) == d0 + a * d1
  {
    Distribute(a, b * d2, d1);
    Associate(a, b, d2);
    assert a * d1 + d0 < a * b by {
      Distribute(a, b - 1 - d1, d1 + 1);
      Distribute(a, d1, 1);
      assert a * (b - 1 - d1) >= 0;
    }
    ModUnique(v, d2, d0 + a * d1, a * b);
  }

  /** `v` is its high bits above its low bits. */
  lemma HighWrap(v: int, n: nat)
    ensures v == Pow2(n) * High(v, n) + Wrap(v, n)
  {
  }

  /** And only its high bits and low bits are so. */
  lemma HighWrapUnique(v: int, n: nat, hi: int, lo: nat)
    requires lo < Pow2(n) && v == Pow2(n) * hi + lo
    ensures High(v, n) == hi && Wrap(v, n) == lo
  {
    ModUnique(v, hi, lo, Pow2(n));
  }

  /** Dropping bits in two steps; the low `p + q` bits are the low `p` bits with the next `q` above them. */
  lemma TwoSteps(v: int, p: nat, q: nat)
    ensures High(v, p + q) == High(High(v, p), q)
    ensures Wrap(v, p + q) == Wrap(v, p) + Pow2(p) * Wrap(High(v, p), q)
  {
    hide Pow2;
    Pow2Add(p, q);
    HighWrap(v, p);
    HighWrap(High(v, p), q);
    Digits(v, p, q, Wrap(v, p), Wrap(High(v, p), q), High(High(v, p), q));
  }

  lemma Digits(v: int, p: nat, q: nat, d0: nat, d1: nat, d2: int)
    requires d0 < Pow2(p) && d1 < Pow2(q) && v == Pow2(p) * (Pow2(q) * d2 + d1) + d0
    ensures High(v, p + q) == d2 && Wrap(v, p + q) == d0 + Pow2(p) * d1
  {
    hide Pow2;
    Pow2Add(p, q);
    MixedRadixDigits(v, Pow2(p), Pow2(q), d0, d1, d2);
  }

  /** Two adjacent slices put side by side are one slice. */
  lemma SliceJoin(v: int, off: nat, p: nat, q: nat)
    ensures Slice(v, off + p, q) * Pow2(p) + Slice(v, off, p) == Slice(v, off, p + q)
  {
    hide Wrap, High, Pow2;
    TwoSteps(v, off, p);
    TwoSteps(High(v, off), p, q);
  }

  /** A slice that starts above the low part of a concatenation only sees the high part. */
  lemma SliceHigh(hi: int, lo: nat, wl: nat, off: nat, w: nat)
    requires lo < Pow2(wl) && wl <= off
    ensures Slice(hi * Pow2(wl) + lo, off, w) == Slice(hi, off - wl, w)
  {
    hide Wrap, High, Pow2;
    HighWrapUnique(hi * Pow2(wl) + lo, wl, hi, lo);
    TwoSteps(hi * Pow2(wl) + lo, wl, off - wl);
  }

  /** A slice that ends inside the low part of a concatenation only sees the low part. */
  lemma SliceLow(hi: int, lo: nat, wl: nat, off: nat, w: nat)
    requires lo < Pow2(wl) && off + w <= wl
    ensures Slice(hi * Pow2(wl) + lo, off, w) == Slice(lo, off, w)
  {
    hide Wrap, High, Pow2;
    var v := hi * Pow2(wl) + lo;
    HighWrapUnique(v, wl, hi, lo);
    SliceOfWrap(v, wl, off, w);
  }

  /** A slice of the low bits is a slice of the value. */
  lemma SliceOfWrap(v: int, n: nat, off: nat, w: nat)
    requires off + w <= n
    ensures Slice(Wrap(v, n), off, w) == Slice(v, off, w)
  {
    hide Wrap, High, Pow2;
    // the low n bits of v, cut at off and at off + w
    var u := Wrap(v, n);
    var v1, u1 := High(v, off), Wrap(High(v, off), n - off);
    TwoSteps(v, off, n - off);
    HighWrapUnique(u, off, u1, Wrap(v, off));
    TwoSteps(v1, w, n - off - w);
    HighWrapUnique(u1, w, Wrap(High(v1, w), n - off - w), Wrap(v1, w));
  }

  lemma SliceWhole(v: nat, w: nat)
    requires v < Pow2(w)
    ensures Slice(v, 0, w) == v
  {
    SliceFromZero(v, w);
    WrapSmall(v, w);
  }

  lemma SliceFromZero(v: int, w: nat)
    ensures Slice(v, 0, w) == Wrap(v, w)
  {
    hide Wrap, High;
    assert Pow2(0) == 1;
    HighWrapUnique(v, 0, v, 0);
  }

  /** `APInt::ashr` by `off` truncated to `w` bits is the plain slice while it stays inside the value. */
  lemma ArithmeticShiftSlice(v: nat, n: nat, off: nat, w: nat)
    requires v < Pow2(n) && 0 < n && 0 < w && off + w <= n
    ensures Slice(ToSigned(v, n), off, w) == Slice(v, off, w)
  {
    hide Wrap, High;
    SliceLow(if v < Pow2(n - 1) then 0 else -1, v, n, off, w);
  }
}
