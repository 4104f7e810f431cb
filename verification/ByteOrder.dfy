/** Values laid out as bytes in either byte order. */
module ByteOrder {
  import opened BitVector

  /** Where byte `i` of significance goes among `n` bytes. */
  function Place(little: bool, n: nat, i: nat): (k: nat)
    requires i < n
    ensures k < n
  {
    if little then i else n - 1 - i
  }

  /** `s` with the `n` bytes of `v` stored from `off` on: the least significant comes first in little-endian
      order and last in big-endian order. */
  function Spliced(s: seq<nat>, off: nat, v: nat, n: nat, little: bool): (r: seq<nat>)
    requires off + n <= |s|
    ensures |r| == |s|
    ensures forall j | off <= j < off + n :: r[j] == Slice(v, 8 * (if little then j - off else off + n - 1 - j), 8)
    ensures forall j | 0 <= j < |s| && !(off <= j < off + n) :: r[j] == s[j]
  {
    seq(|s|, j requires 0 <= j < |s| => SplicedByte(s, off, v, n, little, j))
  }

  function SplicedByte(s: seq<nat>, off: nat, v: nat, n: nat, little: bool, j: nat): nat
    requires j < |s|
  {
    if off <= j < off + n then Slice(v, 8 * Place(little, n, j - off), 8) else s[j]
  }

  /** `s` with the `k` least significant of the `n` bytes of `v` stored so far. */
  function PartlySpliced(s: seq<nat>, off: nat, v: nat, n: nat, little: bool, k: nat): (r: seq<nat>)
    requires off + n <= |s| && k <= n
    ensures |r| == |s|
  {
    if k == 0 then s
    else PartlySpliced(s, off, v, n, little, k - 1)[off + Place(little, n, k - 1) := Slice(v, 8 * (k - 1), 8)]
  }

  lemma NextSpliced(s: seq<nat>, off: nat, v: nat, n: nat, little: bool, k: nat)
    requires off + n <= |s| && k < n
    ensures PartlySpliced(s, off, v, n, little, k + 1) ==
            PartlySpliced(s, off, v, n, little, k)[off + Place(little, n, k) := Slice(v, 8 * k, 8)]
  {
  }

  lemma {:induction false} PartlySplicedAt(s: seq<nat>, off: nat, v: nat, n: nat, little: bool, k: nat, j: nat)
    requires off + n <= |s| && k <= n && j < |s|
    ensures PartlySpliced(s, off, v, n, little, k)[j] ==
            if off <= j < off + n && Place(little, n, j - off) < k then Slice(v, 8 * Place(little, n, j - off), 8) else s[j]
  {
    hide Slice;
    if k > 0 {
      PartlySplicedAt(s, off, v, n, little, k - 1, j);
    }
  }

  lemma AllSpliced(s: seq<nat>, off: nat, v: nat, n: nat, little: bool)
    requires off + n <= |s|
    ensures PartlySpliced(s, off, v, n, little, n) == Spliced(s, off, v, n, little)
    ensures PartlySpliced(s, off, v, n, little, 0) == s
  {
    hide Slice;
    forall j | 0 <= j < |s|
      ensures PartlySpliced(s, off, v, n, little, n)[j] == Spliced(s, off, v, n, little)[j]
    {
      PartlySplicedAt(s, off, v, n, little, n, j);
    }
  }

  /** Storing one byte. */
  lemma OneByteSpliced(s: seq<nat>, off: nat, v: nat, little: bool)
    requires off < |s| && v < Pow2(8)
    ensures Spliced(s, off, v, 1, little) == s[off := v]
  {
    hide Slice, Pow2;
    SliceWhole(v, 8);
  }

  /** The value of the `k` least significant of the `n` bytes from `off` on. */
  function Assembled(s: seq<nat>, off: nat, n: nat, little: bool, k: nat): nat
    requires off + n <= |s| && k <= n
  {
    if k == 0 then 0
    else s[off + Place(little, n, k - 1)] * Pow2(8 * (k - 1)) + Assembled(s, off, n, little, k - 1)
  }

  /** The value of bytes of which the first is the least significant. */
  function LittleEndian(bytes: seq<nat>): nat {
    if bytes == [] then 0 else bytes[0] + 256 * LittleEndian(bytes[1..])
  }

  /** The value of bytes of which the last is the least significant. */
  function BigEndian(bytes: seq<nat>): nat {
    if bytes == [] then 0 else 256 * BigEndian(bytes[..|bytes| - 1]) + bytes[|bytes| - 1]
  }

  /** Adding a most significant byte. */
  lemma {:induction false} MostSignificant(bytes: seq<nat>, b: nat)
    ensures LittleEndian(bytes + [b]) == b * Pow2(8 * |bytes|) + LittleEndian(bytes)
    ensures BigEndian([b] + bytes) == b * Pow2(8 * |bytes|) + BigEndian(bytes)
  {
    hide Pow2;
    if bytes == [] {
      Pow2Zero();
    } else {
      var n := |bytes| - 1;
      Pow2Byte();
      Pow2Add(8, 8 * n);
      Associate(b, 256, Pow2(8 * n));
      Associate(256, b, Pow2(8 * n));
      MostSignificant(bytes[1..], b);
      assert (bytes + [b])[1..] == bytes[1..] + [b];
      MostSignificant(bytes[..n], b);
      assert ([b] + bytes)[..n + 1] == [b] + bytes[..n];
    }
  }

  /** The low `k` bytes have the value of the first `k` in little-endian order, of the last `k` in big-endian
      order. */
  lemma {:induction false} AssembledMeaning(s: seq<nat>, off: nat, n: nat, little: bool, k: nat)
    requires off + n <= |s| && k <= n
    ensures Assembled(s, off, n, little, k) ==
            if little then LittleEndian(s[off..off + k]) else BigEndian(s[off + n - k..off + n])
  {
    hide Pow2, LittleEndian, BigEndian;
    if k == 0 {
      NoBytes();
    } else {
      AssembledMeaning(s, off, n, little, k - 1);
      if little {
        MostSignificant(s[off..off + k - 1], s[off + k - 1]);
        assert s[off..off + k] == s[off..off + k - 1] + [s[off + k - 1]];
      } else {
        MostSignificant(s[off + n - k + 1..off + n], s[off + n - k]);
        assert s[off + n - k..off + n] == [s[off + n - k]] + s[off + n - k + 1..off + n];
      }
    }
  }

  lemma NoBytes()
    ensures LittleEndian([]) == BigEndian([]) == 0
  {
  }

  /** What is stored is read back: the low `8 * k` bits from the low `k` bytes. */
  lemma {:induction false} AssembleSpliced(s: seq<nat>, off: nat, v: nat, n: nat, little: bool, k: nat)
    requires off + n <= |s| && k <= n
    ensures Assembled(Spliced(s, off, v, n, little), off, n, little, k) == Slice(v, 0, 8 * k)
  {
    hide Slice, Pow2, Spliced;
    if k == 0 {
      SliceEmpty(v);
    } else {
      AssembleSpliced(s, off, v, n, little, k - 1);
      SliceJoin(v, 0, 8 * (k - 1), 8);
    }
  }

  lemma SliceEmpty(v: nat)
    ensures Slice(v, 0, 0) == 0
  {
    assert Pow2(0) == 1;
  }

  /** A value of `8 * n` bits survives the round trip through `n` bytes. */
  lemma ByteRoundTrip(s: seq<nat>, off: nat, v: nat, n: nat, little: bool)
    requires off + n <= |s| && v < Pow2(8 * n)
    ensures Assembled(Spliced(s, off, v, n, little), off, n, little, n) == v
  {
    hide Slice, Pow2, Spliced;
    AssembleSpliced(s, off, v, n, little, n);
    SliceWhole(v, 8 * n);
  }

  lemma {:induction false} AssembledBound(s: seq<nat>, off: nat, n: nat, little: bool, k: nat)
    requires off + n <= |s| && k <= n && forall i | 0 <= i < |s| :: s[i] < 256
    ensures Assembled(s, off, n, little, k) < Pow2(8 * k)
  {
    hide Pow2;
    if k == 0 {
      assert Pow2(0) == 1 by { Pow2Zero(); }
    } else {
      AssembledBound(s, off, n, little, k - 1);
      Pow2Byte();
      JoinBound(s[off + Place(little, n, k - 1)], Assembled(s, off, n, little, k - 1), 8, 8 * (k - 1));
    }
  }

  lemma Pow2Zero()
    ensures Pow2(0) == 1
  {
  }
}
