/** `ObjectState`: the bytes of a memory object, held in a concrete store, a table of known symbolic
bytes, and a lazily flushed update list. The class is proved to refine a plain byte array: `Contents(a)`
is the array under the assignment `a`, and every read and write acts on it as on an array.
*/
module ObjectStates {
  import opened BitVector
  import opened Expressions
  import opened SmartConstructors
  import opened ConstructorSoundness
  import opened Basics
  import opened ByteOrder

  // ---------------------------------------------------------------- update lists as write histories

  type Write = (Expr, Expr)

  /** The writes of a list, the oldest first. */
  function Writes(us: Updates): seq<Write> {
    match us
    case NoUpdates => []
    case Update(i, v, next) => Writes(next) + [(i, v)]
  }

  function FromWrites(ws: seq<Write>): Updates {
    if ws == [] then NoUpdates
    else Update(ws[|ws| - 1].0, ws[|ws| - 1].1, FromWrites(ws[..|ws| - 1]))
  }

  lemma {:induction false} WritesRoundTrip(us: Updates)
    ensures FromWrites(Writes(us)) == us
  {
    if us.Update? {
      WritesRoundTrip(us.next);
      assert Writes(us)[..|Writes(us)| - 1] == Writes(us.next);
    }
  }

  /** Writes of bytes at 32-bit indices; constant indices lie inside the object. */
  predicate WFWrites(us: Updates, size: nat) {
    match us
    case NoUpdates => true
    case Update(i, v, next) =>
      OfWidth(i, INT32) && OfWidth(v, INT8) && (i.Constant? ==> i.value < size) && WFWrites(next, size)
  }

  lemma {:induction false} WFWritesUpdates(us: Updates, size: nat)
    requires WFWrites(us, size)
    ensures WFUpdates(us, INT32, INT8)
  {
    if us.Update? {
      WFWritesUpdates(us.next, size);
    }
  }

  lemma {:induction false} WFWritesPrefix(ws: seq<Write>, k: nat, size: nat)
    requires k <= |ws| && WFWrites(FromWrites(ws), size)
    ensures WFWrites(FromWrites(ws[..k]), size)
    ensures k < |ws| ==> OfWidth(ws[k].0, INT32) && OfWidth(ws[k].1, INT8) && (ws[k].0.Constant? ==> ws[k].0.value < size)
    ensures k < |ws| ==> FromWrites(ws[..k + 1]) == Update(ws[k].0, ws[k].1, FromWrites(ws[..k]))
    decreases |ws|
  {
    if k < |ws| {
      assert ws[..k + 1][..k] == ws[..k];
      if k == |ws| - 1 {
        assert ws[..k + 1] == ws;
      } else {
        var n := |ws| - 1;
        assert ws[..n][..k] == ws[..k] && ws[..n][..k + 1] == ws[..k + 1];
        WFWritesPrefix(ws[..n], k, size);
      }
    } else {
      assert ws[..k] == ws;
    }
  }

  // ---------------------------------------------------------------- roots

  function Zeros(n: nat): (s: seq<nat>)
    ensures |s| == n && forall i | 0 <= i < n :: s[i] == 0
  {
    seq(n, _ => 0)
  }

  /** A constant array holding `contents`. */
  function ConstantArray(contents: seq<nat>): Array {
    Array("const_arr", |contents|, INT32, INT8, contents)
  }

  predicate ByteArray(root: Array) {
    WFArray(root) && root.domain == INT32 && root.range == INT8
  }

  predicate Bytes(s: seq<nat>) {
    forall i | 0 <= i < |s| :: s[i] < 256
  }

  lemma ConstantArrayWF(contents: seq<nat>)
    requires Bytes(contents)
    ensures ByteArray(ConstantArray(contents))
  {
    Pow2Byte();
  }

  /** The mask, or the one a lazily allocated mask starts as. */
  function MaskOr(m: Option<seq<bool>>, size: nat, value: bool): seq<bool> {
    if m.Some? then m.value else seq(size, _ => value)
  }

  function TableOr(t: Option<seq<Option<Expr>>>, size: nat): seq<Option<Expr>> {
    if t.Some? then t.value else seq(size, _ => None)
  }

  // ---------------------------------------------------------------- the class

  class ObjectState {
    var copyOnWriteOwner: nat
    var readOnly: bool
    const size: nat
    var concreteStore: seq<nat>
    var concreteMask: Option<seq<bool>>
    var knownSymbolics: Option<seq<Option<Expr>>>
    var unflushedMask: Option<seq<bool>>
    var root: Option<Array>
    var head: Updates

    predicate IsByteConcrete(i: nat)
      reads this
      requires i < size && Shape()
    {
      concreteMask.None? || concreteMask.value[i]
    }

    predicate IsByteUnflushed(i: nat)
      reads this
      requires i < size && Shape()
    {
      unflushedMask.None? || unflushedMask.value[i]
    }

    predicate IsByteKnownSymbolic(i: nat)
      reads this
      requires i < size && Shape()
    {
      knownSymbolics.Some? && knownSymbolics.value[i].Some?
    }

    /** Everything has the right size and width. */
    predicate Shape()
      reads this
      ensures Shape() ==> size <= Pow2(INT32)
    {
      && size <= Pow2(INT32)
      && |concreteStore| == size && Bytes(concreteStore)
      && (concreteMask.Some? ==> |concreteMask.value| == size)
      && (unflushedMask.Some? ==> |unflushedMask.value| == size)
      && (knownSymbolics.Some? ==> |knownSymbolics.value| == size)
      && (knownSymbolics.Some? ==>
            forall i | 0 <= i < size :: knownSymbolics.value[i].Some? ==> OfWidth(knownSymbolics.value[i].value, INT8))
      && (root.Some? ==> ByteArray(root.value))
      && WFWrites(head, size)
    }

    /** The array under the update list; before it is created it stands for zeros. */
    function Root(): (r: Array)
      reads this
      requires Shape()
      ensures ByteArray(r)
    {
      if root.Some? then root.value else ConstantArrayWF(Zeros(size)); ConstantArray(Zeros(size))
    }

    /** The byte at `i` according to the update list. */
    ghost function Flushed(i: nat, a: Assignment): (v: nat)
      reads this
      requires Shape()
    {
      WFWritesUpdates(head, size);
      EvalUpdates(head, Root(), i, a)
    }

    /** The byte at `i`. */
    ghost function Byte(i: nat, a: Assignment): (v: nat)
      reads this
      requires Shape() && i < size
    {
      if IsByteConcrete(i) then concreteStore[i]
      else if IsByteKnownSymbolic(i) then Eval(knownSymbolics.value[i].value, a)
      else Flushed(i, a)
    }

    /** The plain byte array that this object state stands for under `a`. */
    ghost function Contents(a: Assignment): (s: seq<nat>)
      reads this
      requires Shape()
      ensures |s| == size
    {
      seq(size, i requires 0 <= i < size reads this requires Shape() => Byte(i, a))
    }

    /** The cache invariants of byte `i`; a flushed byte in the cache agrees with the update list. */
    ghost predicate CacheOk(i: nat)
      reads this
      requires Shape() && i < size
    {
      && (IsByteKnownSymbolic(i) ==> !IsByteConcrete(i))
      && (IsByteUnflushed(i) ==> IsByteConcrete(i) || IsByteKnownSymbolic(i))
      && (!IsByteUnflushed(i) ==> forall a: Assignment :: Flushed(i, a) == Byte(i, a))
    }

    ghost predicate Valid()
      reads this
      ensures Valid() ==> Shape()
    {
      Shape() && forall i | 0 <= i < size :: CacheOk(i)
    }

    // -------------------------------------------------------------- creation

    /** Concrete contents, all zero. Without constant arrays the list sits on a fresh symbolic array. */
    constructor (size: nat, useConstantArrays: bool, tmpName: string)
      requires size <= Pow2(INT32)
      ensures Valid() && this.size == size && copyOnWriteOwner == 0 && !readOnly
      ensures forall a: Assignment :: Contents(a) == Zeros(size)
    {
      this.size := size;
      copyOnWriteOwner, readOnly := 0, false;
      concreteStore := Zeros(size);
      concreteMask, knownSymbolics, unflushedMask := None, None, None;
      root := if useConstantArrays then None else Some(Array(tmpName, size, INT32, INT8, []));
      head := NoUpdates;
    }

    /** Symbolic contents: byte `i` is element `i` of `symbols`. */
    constructor Symbolic(size: nat, symbols: Array)
      requires size <= Pow2(INT32) && ByteArray(symbols)
      ensures Valid() && this.size == size && copyOnWriteOwner == 0 && !readOnly
      ensures forall a: Assignment, i | 0 <= i < size :: Contents(a)[i] == RootValue(a, symbols, i)
    {
      this.size := size;
      copyOnWriteOwner, readOnly := 0, false;
      concreteStore := Zeros(size);
      concreteMask, knownSymbolics, unflushedMask := None, None, None;
      root := Some(symbols);
      head := NoUpdates;
      new;
      MakeSymbolic();
    }

    /** The copy made on write: same bytes, no owner yet. */
    constructor Copy(os: ObjectState)
      requires os.Valid()
      ensures Valid() && size == os.size && copyOnWriteOwner == 0 && !readOnly
      ensures forall a: Assignment :: Contents(a) == os.Contents(a)
    {
      this.size := os.size;
      copyOnWriteOwner, readOnly := 0, false;
      concreteStore := os.concreteStore;
      concreteMask := os.concreteMask;
      knownSymbolics := os.knownSymbolics;
      unflushedMask := os.unflushedMask;
      root := os.root;
      head := os.head;
      new;
      SameBytes(os);
    }

    /** Object states with equal fields hold equal bytes. */
    lemma SameBytes(os: ObjectState)
      requires os.Valid() && size == os.size && concreteStore == os.concreteStore && concreteMask == os.concreteMask
      requires knownSymbolics == os.knownSymbolics && unflushedMask == os.unflushedMask && root == os.root && head == os.head
      ensures Valid() && forall a: Assignment :: Contents(a) == os.Contents(a)
    {
      hide Eval, EvalUpdates, WF;
      forall i, a: Assignment | 0 <= i < size
        ensures Flushed(i, a) == os.Flushed(i, a) && Byte(i, a) == os.Byte(i, a)
      {
      }
      forall i | 0 <= i < size
        ensures CacheOk(i)
      {
        assert os.CacheOk(i);
      }
    }

    /** Record the epoch that owns this object state; no byte depends on it. */
    method SetOwner(key: nat)
      requires Valid()
      modifies this`copyOnWriteOwner
      ensures Valid() && copyOnWriteOwner == key && forall a: Assignment :: Contents(a) == old(Contents(a))
    {
      hide Eval, EvalUpdates, WF;
      copyOnWriteOwner := key;
      SameList();
      forall i | 0 <= i < size ensures CacheOk(i) {
        assert old(CacheOk(i));
      }
      SameContents();
    }

    /** Forbid or allow writing; no byte depends on it. */
    method SetReadOnly(readOnly: bool)
      requires Valid()
      modifies this`readOnly
      ensures Valid() && this.readOnly == readOnly && forall a: Assignment :: Contents(a) == old(Contents(a))
    {
      hide Eval, EvalUpdates, WF;
      this.readOnly := readOnly;
      SameList();
      forall i | 0 <= i < size ensures CacheOk(i) {
        assert old(CacheOk(i));
      }
      SameContents();
    }

    method MakeSymbolic()
      requires Shape() && head.NoUpdates? && root.Some? && knownSymbolics.None? && unflushedMask.None?
      modifies this`concreteMask, this`unflushedMask, this`knownSymbolics
      ensures Valid()
      ensures forall a: Assignment, i | 0 <= i < size :: Contents(a)[i] == RootValue(a, root.value, i)
    {
      hide Eval;
      for i := 0 to size
        invariant Shape() && knownSymbolics.None?
        invariant i > 0 ==> concreteMask.Some? && forall j | 0 <= j < i :: !concreteMask.value[j]
        invariant i == 0 ==> unflushedMask.None?
        invariant i > 0 ==> unflushedMask.Some? && forall j | 0 <= j < size :: !unflushedMask.value[j]
      {
        MarkByteSymbolic(i);
        SetKnownSymbolic(i, None);
        MarkByteFlushed(i);
      }
    }

    // -------------------------------------------------------------- mask helpers

    method MarkByteConcrete(offset: nat)
      requires Shape() && offset < size
      modifies this`concreteMask
      ensures Shape()
      ensures concreteMask == if old(concreteMask).Some? then Some(old(concreteMask).value[offset := true]) else None
    {
      if concreteMask.Some? {
        concreteMask := Some(concreteMask.value[offset := true]);
      }
    }

    method MarkByteSymbolic(offset: nat)
      requires Shape() && offset < size
      modifies this`concreteMask
      ensures Shape() && concreteMask == Some(MaskOr(old(concreteMask), size, true)[offset := false])
    {
      if concreteMask.None? {
        concreteMask := Some(seq(size, _ => true));
      }
      concreteMask := Some(concreteMask.value[offset := false]);
    }

    method MarkByteUnflushed(offset: nat)
      requires Shape() && offset < size
      modifies this`unflushedMask
      ensures Shape()
      ensures unflushedMask == if old(unflushedMask).Some? then Some(old(unflushedMask).value[offset := true]) else None
    {
      if unflushedMask.Some? {
        unflushedMask := Some(unflushedMask.value[offset := true]);
      }
    }

    /** Without a mask this marks every byte flushed, not only the one named. */
    method MarkByteFlushed(offset: nat)
      requires Shape() && offset < size
      modifies this`unflushedMask
      ensures Shape() && unflushedMask == Some(MaskOr(old(unflushedMask), size, false)[offset := false])
    {
      if unflushedMask.None? {
        unflushedMask := Some(seq(size, _ => false));
        assert unflushedMask.value == unflushedMask.value[offset := false];
      } else {
        unflushedMask := Some(unflushedMask.value[offset := false]);
      }
    }

    method SetKnownSymbolic(offset: nat, value: Option<Expr>)
      requires Shape() && offset < size && (value.Some? ==> OfWidth(value.value, INT8))
      modifies this`knownSymbolics
      ensures Shape()
      ensures knownSymbolics.None? <==> old(knownSymbolics).None? && value.None?
      ensures knownSymbolics.Some? ==> knownSymbolics.value == TableOr(old(knownSymbolics), size)[offset := value]
    {
      if knownSymbolics.Some? {
        knownSymbolics := Some(knownSymbolics.value[offset := value]);
      } else if value.Some? {
        var none: Option<Expr> := None;
        knownSymbolics := Some(seq(size, _ => none)[offset := value]);
      }
    }

    // -------------------------------------------------------------- flushing

    /** Bytes and cache facts that hold byte by byte hold of the whole. */
    twostate lemma SameContents()
      requires old(Shape()) && Shape() && forall i, a: Assignment | 0 <= i < size :: Byte(i, a) == old(Byte(i, a))
      ensures forall a: Assignment :: Contents(a) == old(Contents(a))
    {
    }

    /** The update list decides the flushed bytes. */
    twostate lemma SameList()
      requires old(Shape()) && Shape() && root == old(root) && head == old(head)
      ensures forall i, a: Assignment | 0 <= i < size :: Flushed(i, a) == old(Flushed(i, a))
    {
    }

    /** `updates.extend` with a write of `value` at `offset`. */
    method Extend(offset: Expr, value: Expr)
      requires Shape() && OfWidth(offset, INT32) && OfWidth(value, INT8) && (offset.Constant? ==> offset.value < size)
      modifies this`head
      ensures Shape() && head == Update(offset, value, old(head))
      ensures forall i, a: Assignment | 0 <= i < size ::
                Flushed(i, a) == if Eval(offset, a) == i then Eval(value, a) else old(Flushed(i, a))
    {
      hide Eval, WF, Width;
      head := Update(offset, value, head);
    }

    /** Write one unflushed byte from the cache to the update list. */
    method FlushByte(offset: nat)
      requires Valid() && offset < size && IsByteUnflushed(offset)
      modifies this`head
      ensures Shape() && forall i, a: Assignment | 0 <= i < size :: Byte(i, a) == old(Byte(i, a))
      ensures forall i, a: Assignment | 0 <= i < size ::
                Flushed(i, a) == if i == offset then old(Byte(i, a)) else old(Flushed(i, a))
    {
      hide Eval, EvalUpdates;
      assert CacheOk(offset);
      var index := Constant(offset, INT32);
      var value := if IsByteConcrete(offset) then Constant(concreteStore[offset], INT8) else knownSymbolics.value[offset].value;
      Pow2Byte();
      forall a: Assignment ensures Eval(index, a) == offset && Eval(value, a) == Byte(offset, a) {
        ConstantNode(index, a);
        if IsByteConcrete(offset) {
          ConstantNode(value, a);
        }
      }
      Extend(index, value);
    }

    method FlushOneForRead(offset: nat)
      requires Valid() && offset < size && unflushedMask.Some?
      modifies this`head, this`unflushedMask
      ensures Valid() && unflushedMask == Some(old(unflushedMask).value[offset := false])
      ensures forall i, a: Assignment | 0 <= i < size :: Byte(i, a) == old(Byte(i, a))
    {
      hide Eval, EvalUpdates, WF, Width, WFWrites;
      if IsByteUnflushed(offset) {
        FlushByte(offset);
        label flushed:
        unflushedMask := Some(unflushedMask.value[offset := false]);
        SameList@flushed();
        forall i | 0 <= i < size ensures CacheOk(i) {
          assert old(CacheOk(i));
        }
      } else {
        assert unflushedMask.value == unflushedMask.value[offset := false];
      }
    }

    /** Reads may go to the update list once the range is flushed; the bytes stay cached. */
    method FlushRangeForRead(rangeBase: nat, rangeSize: nat)
      requires Valid() && rangeBase + rangeSize <= size
      modifies this`head, this`unflushedMask
      ensures Valid() && forall a: Assignment :: Contents(a) == old(Contents(a))
      ensures forall i | rangeBase <= i < rangeBase + rangeSize :: !IsByteUnflushed(i)
    {
      hide Eval, EvalUpdates, WF, Width, WFWrites;
      if unflushedMask.None? {
        unflushedMask := Some(seq(size, _ => true));
        forall i | 0 <= i < size ensures CacheOk(i) {
          assert old(CacheOk(i));
        }
      }
      for offset := rangeBase to rangeBase + rangeSize
        invariant Valid() && unflushedMask.Some?
        invariant forall i, a: Assignment | 0 <= i < size :: Byte(i, a) == old(Byte(i, a))
        invariant forall i | rangeBase <= i < offset :: !unflushedMask.value[i]
      {
        FlushOneForRead(offset);
      }
      SameContents();
    }

    method FlushOneForWrite(offset: nat)
      requires Valid() && offset < size && unflushedMask.Some?
      modifies this`head, this`unflushedMask, this`concreteMask, this`knownSymbolics
      ensures Valid() && unflushedMask.Some? && concreteMask.Some?
      ensures unflushedMask.value == old(unflushedMask).value[offset := false]
      ensures concreteMask.value == MaskOr(old(concreteMask), size, true)[offset := false]
      ensures TableOr(knownSymbolics, size) == TableOr(old(knownSymbolics), size)[offset := None]
      ensures forall i, a: Assignment | 0 <= i < size :: Byte(i, a) == old(Byte(i, a))
    {
      hide Eval, EvalUpdates, WF, Width, WFWrites;
      FlushOneForRead(offset);
      assert CacheOk(offset);
      label flushed:
      if IsByteConcrete(offset) {
        MarkByteSymbolic(offset);
      } else if IsByteKnownSymbolic(offset) {
        SetKnownSymbolic(offset, None);
      }
      SameList@flushed();
      assert TableOr(knownSymbolics, size) == TableOr(old(knownSymbolics), size)[offset := None];
      forall i | 0 <= i < size ensures CacheOk(i) {
        assert old@flushed(CacheOk(i));
      }
    }

    /** Bytes that a symbolic write may hit leave the cache. */
    method FlushRangeForWrite(rangeBase: nat, rangeSize: nat)
      requires Valid() && rangeBase + rangeSize <= size
      modifies this`head, this`unflushedMask, this`concreteMask, this`knownSymbolics
      ensures Valid() && forall a: Assignment :: Contents(a) == old(Contents(a))
      ensures forall i | rangeBase <= i < rangeBase + rangeSize ::
                !IsByteConcrete(i) && !IsByteKnownSymbolic(i) && !IsByteUnflushed(i)
    {
      hide Eval, EvalUpdates, WF, Width, WFWrites;
      if unflushedMask.None? {
        unflushedMask := Some(seq(size, _ => true));
        forall i | 0 <= i < size ensures CacheOk(i) {
          assert old(CacheOk(i));
        }
      }
      for offset := rangeBase to rangeBase + rangeSize
        invariant Valid() && unflushedMask.Some?
        invariant forall i, a: Assignment | 0 <= i < size :: Byte(i, a) == old(Byte(i, a))
        invariant rangeBase < offset ==> concreteMask.Some?
        invariant forall i | rangeBase <= i < offset :: !unflushedMask.value[i] && !concreteMask.value[i]
        invariant forall i | rangeBase <= i < offset :: TableOr(knownSymbolics, size)[i].None?
      {
        FlushOneForWrite(offset);
      }
      forall i | rangeBase <= i < rangeBase + rangeSize
        ensures !IsByteConcrete(i) && !IsByteKnownSymbolic(i) && !IsByteUnflushed(i)
      {
        assert TableOr(knownSymbolics, size)[i].None?;
      }
      SameContents();
    }

    // -------------------------------------------------------------- the update list on demand

    /** Create the constant array under the list if there is none: leading constant writes become its
        elements, the others stay writes. */
    method GetUpdates() returns (ul: UpdateList)
      requires Valid()
      modifies this`root, this`head
      ensures Valid() && root == Some(ul.root) && head == ul.head
      ensures forall i, a: Assignment | 0 <= i < size :: Flushed(i, a) == old(Flushed(i, a))
      ensures forall a: Assignment :: Contents(a) == old(Contents(a))
    {
      hide Eval, EvalUpdates, WF, Width;
      if root.None? {
        var contents, list := ConstantRoot(head, size);
        root := Some(ConstantArray(contents));
        head := list;
        forall i, a: Assignment | 0 <= i < size
          ensures Flushed(i, a) == old(Flushed(i, a)) && Byte(i, a) == old(Byte(i, a))
        {
          assert Flushed(i, a) == EvalUpdates(list, ConstantArray(contents), i, a);
        }
        forall i | 0 <= i < size ensures CacheOk(i) {
          assert old(CacheOk(i));
        }
      }
      SameContents();
      ul := UpdateList(root.value, head);
    }

    // -------------------------------------------------------------- single bytes

    /** `read8` at a constant offset. */
    method Read8(offset: nat) returns (e: Expr)
      requires Valid() && offset < size
      modifies this`root, this`head
      ensures Valid() && OfWidth(e, INT8)
      ensures forall a: Assignment :: Contents(a) == old(Contents(a))
      ensures forall a: Assignment :: Eval(e, a) == Contents(a)[offset]
    {
      hide Eval, EvalUpdates, WFWrites;
      Pow2Byte();
      assert CacheOk(offset);
      if IsByteConcrete(offset) {
        e := Constant(concreteStore[offset], INT8);
        forall a: Assignment ensures Eval(e, a) == Contents(a)[offset] {
          ConstantNode(e, a);
        }
      } else if IsByteKnownSymbolic(offset) {
        e := knownSymbolics.value[offset].value;
      } else {
        var ul := GetUpdates();
        var index := Constant(offset, INT32);
        e := ReadAt(ul, index);
        forall a: Assignment ensures Eval(e, a) == Contents(a)[offset] {
          ConstantNode(index, a);
        }
      }
    }

    /** `ReadExpr::create` on the current list. */
    method ReadAt(ul: UpdateList, index: Expr) returns (e: Expr)
      requires Valid() && root == Some(ul.root) && head == ul.head && OfWidth(index, INT32)
      ensures OfWidth(e, INT8)
      ensures forall a: Assignment :: Eval(e, a) == Flushed(Eval(index, a), a)
    {
      hide EvalBinary, ReadCreate;
      WFWritesUpdates(head, size);
      e := ReadCreate(ul, index);
      forall a: Assignment ensures Eval(e, a) == Flushed(Eval(index, a), a) {
        ReadSound(ul, index, a);
      }
    }

    /** `read8` at a symbolic offset: flushes, and then reads through the list. */
    method Read8Symbolic(offset: Expr) returns (e: Expr)
      requires Valid() && OfWidth(offset, INT32) && !offset.Constant?
      modifies this`root, this`head, this`unflushedMask
      ensures Valid() && OfWidth(e, INT8)
      ensures forall a: Assignment :: Contents(a) == old(Contents(a))
      ensures forall a: Assignment | Eval(offset, a) < size :: Eval(e, a) == Contents(a)[Eval(offset, a)]
    {
      hide Eval, EvalUpdates, WFWrites, WF, Width;
      FlushRangeForRead(0, size);
      label flushed:
      var ul := GetUpdates();
      e := ReadAt(ul, offset);
      forall a: Assignment | Eval(offset, a) < size ensures Eval(e, a) == Contents(a)[Eval(offset, a)] {
        assert !old@flushed(IsByteUnflushed(Eval(offset, a)));
        assert CacheOk(Eval(offset, a));
      }
    }

    /** A byte put into the cache, everything else as before. */
    twostate lemma OneByteCached(offset: nat)
      requires old(Valid()) && Shape() && root == old(root) && head == old(head) && offset < size
      requires forall i | 0 <= i < size && i != offset ::
                 IsByteConcrete(i) == old(IsByteConcrete(i)) && IsByteUnflushed(i) == old(IsByteUnflushed(i)) &&
                 concreteStore[i] == old(concreteStore)[i] && IsByteKnownSymbolic(i) == old(IsByteKnownSymbolic(i)) &&
                 (IsByteKnownSymbolic(i) ==> knownSymbolics.value[i] == old(knownSymbolics).value[i])
      requires IsByteUnflushed(offset) && IsByteConcrete(offset) != IsByteKnownSymbolic(offset)
      ensures Valid() && forall a: Assignment :: Contents(a) == old(Contents(a))[offset := Byte(offset, a)]
    {
      hide Eval, EvalUpdates, WFWrites, WF, Width;
      SameList();
      forall i, a: Assignment | 0 <= i < size && i != offset ensures Byte(i, a) == old(Byte(i, a)) {
      }
      forall i | 0 <= i < size ensures CacheOk(i) {
        assert old(CacheOk(i));
      }
    }

    /** `write8` of a concrete byte at a constant offset. */
    method Write8Concrete(offset: nat, value: nat)
      requires Valid() && offset < size && value < 256
      modifies this`concreteStore, this`knownSymbolics, this`concreteMask, this`unflushedMask
      ensures Valid() && forall a: Assignment :: Contents(a) == old(Contents(a))[offset := value]
    {
      hide Eval, EvalUpdates, WFWrites, WF, Width, Contents, CacheOk, Pow2;
      concreteStore := concreteStore[offset := value];
      SetKnownSymbolic(offset, None);
      MarkByteConcrete(offset);
      MarkByteUnflushed(offset);
      assert IsByteUnflushed(offset) && IsByteConcrete(offset) && !IsByteKnownSymbolic(offset);
      assert forall i | 0 <= i < size && i != offset :: IsByteConcrete(i) == old(IsByteConcrete(i));
      assert forall i | 0 <= i < size && i != offset :: IsByteUnflushed(i) == old(IsByteUnflushed(i));
      OneByteCached(offset);
    }

    /** `write8` of an expression at a constant offset. */
    method Write8(offset: nat, value: Expr)
      requires Valid() && offset < size && OfWidth(value, INT8)
      modifies this`concreteStore, this`knownSymbolics, this`concreteMask, this`unflushedMask
      ensures Valid() && forall a: Assignment :: Contents(a) == old(Contents(a))[offset := Eval(value, a)]
    {
      hide Eval, EvalUpdates, WFWrites;
      if value.Constant? {
        ConstantByte(value);
        Write8Concrete(offset, value.value);
        forall a: Assignment ensures Eval(value, a) == value.value {
          ConstantNode(value, a);
        }
      } else {
        SetKnownSymbolic(offset, Some(value));
        MarkByteSymbolic(offset);
        MarkByteUnflushed(offset);
        OneByteCached(offset);
      }
    }

    /** `write8` at a symbolic offset. A write past the end, which the executor excludes, changes no byte. */
    method Write8Symbolic(offset: Expr, value: Expr)
      requires Valid() && OfWidth(offset, INT32) && !offset.Constant? && OfWidth(value, INT8)
      modifies this`head, this`unflushedMask, this`concreteMask, this`knownSymbolics
      ensures Valid()
      ensures forall a: Assignment :: Contents(a) == Store(old(Contents(a)), Eval(offset, a), Eval(value, a))
    {
      hide Eval, EvalUpdates, WFWrites, WF, Width;
      FlushRangeForWrite(0, size);
      label flushed:
      Extend(offset, value);
      forall i | 0 <= i < size ensures !IsByteConcrete(i) && !IsByteKnownSymbolic(i) && !IsByteUnflushed(i) {
        assert !old@flushed(IsByteConcrete(i)) && !old@flushed(IsByteKnownSymbolic(i)) && !old@flushed(IsByteUnflushed(i));
      }
      forall a: Assignment ensures Contents(a) == Store(old(Contents(a)), Eval(offset, a), Eval(value, a)) {
        assert forall i | 0 <= i < size :: Byte(i, a) == if i == Eval(offset, a) then Eval(value, a) else old@flushed(Byte(i, a));
      }
    }

    // -------------------------------------------------------------- whole values

    /** `read` at a constant offset. */
    method ReadAtOffset(offset: nat, w: nat, little: bool) returns (e: Expr)
      requires Valid() && ByteWidth(w) && offset + NumBytes(w) <= size
      modifies this`root, this`head
      ensures Valid() && OfWidth(e, w)
      ensures forall a: Assignment :: Contents(a) == old(Contents(a))
      ensures forall a: Assignment :: Eval(e, a) == ReadValue(Contents(a), offset, w, little)
    {
      hide Valid, Shape, Contents, Eval, WF, Width, Slice, ExtractCreate, ConcatCreate;
      if w == BOOL {
        var byte := Read8(offset);
        e := ExtractCreate(byte, 0, BOOL);
        forall a: Assignment ensures Eval(e, a) == ReadValue(Contents(a), offset, w, little) {
          ExtractSound(byte, 0, BOOL, a);
        }
        return;
      }
      var n := NumBytes(w);
      e := Read8(offset + Place(little, n, 0));
      forall a: Assignment ensures Eval(e, a) == Assembled(Contents(a), offset, n, little, 1) {
        AssembledFirst(Contents(a), offset, n, little);
      }
      for i := 1 to n
        invariant Valid() && OfWidth(e, 8 * i)
        invariant forall a: Assignment :: Contents(a) == old(Contents(a))
        invariant forall a: Assignment :: Eval(e, a) == Assembled(Contents(a), offset, n, little, i)
      {
        var byte := Read8(offset + Place(little, n, i));
        var res := e;
        e := ConcatCreate(byte, res);
        forall a: Assignment ensures Eval(e, a) == Assembled(Contents(a), offset, n, little, i + 1) {
          ConcatSound(byte, res, a);
        }
      }
    }

    /** `read` at any offset, which is first truncated to 32 bits. */
    method Read(offset: Expr, w: nat, little: bool) returns (e: Expr)
      requires Valid() && ByteWidth(w) && WF(offset) && Addressable(offset, NumBytes(w), size)
      modifies this`root, this`head, this`unflushedMask
      ensures Valid() && OfWidth(e, w)
      ensures forall a: Assignment :: Contents(a) == old(Contents(a))
      ensures forall a: Assignment | InBounds(offset, NumBytes(w), size, a) ::
                Eval(e, a) == ReadValue(Contents(a), Wrap(Eval(offset, a), INT32), w, little)
    {
      hide Valid, Shape, Contents, Eval, WF, Width, Wrap, ZExtCreate, Pow2, Plus, ReadValue, NumBytes;
      var off := ZExtCreate(offset, INT32);
      TruncatedOffset(offset);
      if off.Constant? {
        ConstantOffset(off);
        e := ReadAtOffset(off.value, w, little);
      } else {
        e := ReadSymbolic(off, w, little);
      }
    }

    method ReadSymbolic(off: Expr, w: nat, little: bool) returns (e: Expr)
      requires Valid() && ByteWidth(w) && OfWidth(off, INT32) && !off.Constant? && NumBytes(w) <= size
      requires forall idx | 0 <= idx < NumBytes(w) :: !Plus(off, idx).Constant?
      modifies this`root, this`head, this`unflushedMask
      ensures Valid() && OfWidth(e, w)
      ensures forall a: Assignment :: Contents(a) == old(Contents(a))
      ensures forall a: Assignment | Eval(off, a) + NumBytes(w) <= size ::
                Eval(e, a) == ReadValue(Contents(a), Eval(off, a), w, little)
    {
      hide Valid, Shape, Contents, Eval, WF, Width, NumBytes, ByteWidth, Slice, ExtractCreate, ConcatCreate, Plus, Pow2;
      var n := NumBytes(w);
      if w == BOOL {
        var byte := Read8Symbolic(off);
        e := ExtractCreate(byte, 0, BOOL);
        forall a: Assignment ensures Eval(e, a) == Slice(Eval(byte, a), 0, BOOL) {
          ExtractSound(byte, 0, BOOL, a);
        }
        return;
      }
      e := ReadByte(off, Place(little, n, 0), n);
      forall a: Assignment ensures AssembledTo(Contents(a), Eval(off, a), n, little, 1, Eval(e, a)) {
        AssembledOne(Contents(a), Eval(off, a), n, little, Eval(e, a));
      }
      for i := 1 to n
        invariant Valid() && OfWidth(e, 8 * i)
        invariant forall a: Assignment :: Contents(a) == old(Contents(a))
        invariant forall a: Assignment :: AssembledTo(Contents(a), Eval(off, a), n, little, i, Eval(e, a))
      {
        var byte := ReadByte(off, Place(little, n, i), n);
        var res := e;
        e := ConcatCreate(byte, res);
        forall a: Assignment ensures AssembledTo(Contents(a), Eval(off, a), n, little, i + 1, Eval(e, a)) {
          ConcatSound(byte, res, a);
          AssembledNext(Contents(a), Eval(off, a), n, little, i, Eval(res, a), Eval(byte, a));
        }
      }
      forall a: Assignment | Eval(off, a) + n <= size ensures Eval(e, a) == Assembled(Contents(a), Eval(off, a), n, little, n) {
        AssembledAll(Contents(a), Eval(off, a), n, little, Eval(e, a));
      }
    }

    /** The byte `idx` past a symbolic offset. */
    method ReadByte(off: Expr, idx: nat, n: nat) returns (e: Expr)
      requires Valid() && OfWidth(off, INT32) && idx < n <= size && !Plus(off, idx).Constant?
      modifies this`root, this`head, this`unflushedMask
      ensures Valid() && OfWidth(e, INT8)
      ensures forall a: Assignment :: Contents(a) == old(Contents(a))
      ensures forall a: Assignment | Eval(off, a) + n <= size :: Eval(e, a) == Contents(a)[Eval(off, a) + idx]
    {
      hide Valid, Shape, Contents, Eval, WF, Width, Wrap, AddCreate, Pow2, Plus;
      e := Read8Symbolic(Plus(off, idx));
      forall a: Assignment | Eval(off, a) + n <= size ensures Eval(Plus(off, idx), a) == Eval(off, a) + idx {
        PlusSound(off, idx, size, a);
      }
    }

    /** `write` at a constant offset; `write16`, `write32` and `write64` are the constant case. */
    method WriteAtOffset(offset: nat, value: Expr, little: bool)
      requires Valid() && WF(value) && ByteWidth(Width(value)) && offset + NumBytes(Width(value)) <= size
      modifies this`concreteStore, this`knownSymbolics, this`concreteMask, this`unflushedMask
      ensures Valid()
      ensures forall a: Assignment ::
                Contents(a) == Spliced(old(Contents(a)), offset, Eval(value, a), NumBytes(Width(value)), little)
    {
      hide Valid, Shape, Contents, Eval, WF, Slice, ExtractCreate, ZExtCreate, Spliced, Pow2;
      var w := Width(value);
      var n := NumBytes(w);
      if value.Constant? && w in {BOOL, INT8} {
        forall a: Assignment ensures Eval(value, a) == value.value < Pow2(8) == 256 {
          ConstantNode(value, a);
          ByteBound(value, a);
        }
        assert Eval(value, map[]) < 256;
        Write8Concrete(offset, value.value);
        forall a: Assignment ensures Contents(a) == Spliced(old(Contents(a)), offset, Eval(value, a), n, little) {
          OneByteSpliced(old(Contents(a)), offset, Eval(value, a), little);
        }
      } else if w == BOOL {
        var byte := ZExtCreate(value, INT8);
        Write8(offset, byte);
        forall a: Assignment ensures Contents(a) == Spliced(old(Contents(a)), offset, Eval(value, a), n, little) {
          ZExtSound(value, INT8, a);
          ByteBound(value, a);
          OneByteSpliced(old(Contents(a)), offset, Eval(value, a), little);
        }
      } else {
        WriteBytes(offset, value, little);
      }
    }

    /** The byte loops of `write`. */
    method WriteBytes(offset: nat, value: Expr, little: bool)
      requires Valid() && WF(value) && ByteWidth(Width(value)) && Width(value) != BOOL && offset + NumBytes(Width(value)) <= size
      modifies this`concreteStore, this`knownSymbolics, this`concreteMask, this`unflushedMask
      ensures Valid()
      ensures forall a: Assignment ::
                Contents(a) == Spliced(old(Contents(a)), offset, Eval(value, a), NumBytes(Width(value)), little)
    {
      hide Valid, Shape, Contents, Eval, WF, Slice, ExtractCreate, Spliced, Pow2;
      var n := NumBytes(Width(value));
      for i := 0 to n
        invariant Valid()
        invariant forall a: Assignment ::
                    Contents(a) == PartlySpliced(old(Contents(a)), offset, Eval(value, a), n, little, i)
      {
        label step:
        var k := offset + Place(little, n, i);
        if value.Constant? && Width(value) in {16, 32, 64} {
          var byte := Slice(value.value, 8 * i, 8);
          SliceByte(value.value, 8 * i);
          Write8Concrete(k, byte);
          forall a: Assignment
            ensures Contents(a) == PartlySpliced(old(Contents(a)), offset, Eval(value, a), n, little, i + 1)
          {
            ConstantNode(value, a);
            NextSpliced(old(Contents(a)), offset, Eval(value, a), n, little, i);
          }
        } else {
          var byte := ExtractCreate(value, 8 * i, INT8);
          Write8(k, byte);
          forall a: Assignment
            ensures Contents(a) == PartlySpliced(old(Contents(a)), offset, Eval(value, a), n, little, i + 1)
          {
            ExtractSound(value, 8 * i, INT8, a);
            NextSpliced(old(Contents(a)), offset, Eval(value, a), n, little, i);
          }
        }
      }
      forall a: Assignment
        ensures Contents(a) == Spliced(old(Contents(a)), offset, Eval(value, a), n, little)
      {
        AllSpliced(old(Contents(a)), offset, Eval(value, a), n, little);
      }
    }

    /** `write` at any offset, which is first truncated to 32 bits. */
    method Write(offset: Expr, value: Expr, little: bool)
      requires Valid() && WF(value) && ByteWidth(Width(value)) && WF(offset)
      requires Addressable(offset, NumBytes(Width(value)), size)
      modifies this`head, this`concreteStore, this`knownSymbolics, this`concreteMask, this`unflushedMask
      ensures Valid()
      ensures forall a: Assignment | InBounds(offset, NumBytes(Width(value)), size, a) ::
                Contents(a) == Spliced(old(Contents(a)), Wrap(Eval(offset, a), INT32), Eval(value, a), NumBytes(Width(value)), little)
    {
      hide Valid, Shape, Contents, Eval, WF, Width, Wrap, ZExtCreate, Pow2, Plus, Spliced, NumBytes;
      var off := ZExtCreate(offset, INT32);
      TruncatedOffset(offset);
      if off.Constant? {
        ConstantOffset(off);
        WriteAtOffset(off.value, value, little);
      } else {
        WriteSymbolic(off, value, little);
      }
    }

    method WriteSymbolic(off: Expr, value: Expr, little: bool)
      requires Valid() && WF(value) && ByteWidth(Width(value)) && OfWidth(off, INT32) && !off.Constant?
      requires NumBytes(Width(value)) <= size
      requires forall idx | 0 <= idx < NumBytes(Width(value)) :: !Plus(off, idx).Constant?
      modifies this`head, this`concreteStore, this`knownSymbolics, this`concreteMask, this`unflushedMask
      ensures Valid()
      ensures forall a: Assignment | Eval(off, a) + NumBytes(Width(value)) <= size ::
                Contents(a) == Spliced(old(Contents(a)), Eval(off, a), Eval(value, a), NumBytes(Width(value)), little)
    {
      hide Valid, Shape, Contents, Eval, WF, Width, ZExtCreate, Spliced, Plus, Pow2, Store;
      if Width(value) == BOOL {
        var byte := ZExtCreate(value, INT8);
        Write8Symbolic(off, byte);
        forall a: Assignment | Eval(off, a) + 1 <= size
          ensures Contents(a) == Spliced(old(Contents(a)), Eval(off, a), Eval(value, a), 1, little)
        {
          ZExtSound(value, INT8, a);
          ByteBound(value, a);
          OneByteStored(old(Contents(a)), Eval(off, a), Eval(value, a), little);
        }
      } else {
        WriteSymbolicBytes(off, value, little);
      }
    }

    method WriteSymbolicBytes(off: Expr, value: Expr, little: bool)
      requires Valid() && WF(value) && ByteWidth(Width(value)) && Width(value) != BOOL && OfWidth(off, INT32)
      requires NumBytes(Width(value)) <= size
      requires forall idx | 0 <= idx < NumBytes(Width(value)) :: !Plus(off, idx).Constant?
      modifies this`head, this`concreteStore, this`knownSymbolics, this`concreteMask, this`unflushedMask
      ensures Valid()
      ensures forall a: Assignment | Eval(off, a) + NumBytes(Width(value)) <= size ::
                Contents(a) == Spliced(old(Contents(a)), Eval(off, a), Eval(value, a), NumBytes(Width(value)), little)
    {
      hide Valid, Shape, Contents, Eval, WF, Width, NumBytes, ByteWidth, Slice, Spliced, SplicedTo, Plus, Pow2, Place;
      var n := NumBytes(Width(value));
      forall a: Assignment ensures SplicedTo(Contents(a), Contents(a), Eval(off, a), Eval(value, a), n, little, 0) {
        SplicedNone(Contents(a), Eval(off, a), Eval(value, a), n, little);
      }
      for i := 0 to n
        invariant Valid()
        invariant forall a: Assignment :: SplicedTo(old(Contents(a)), Contents(a), Eval(off, a), Eval(value, a), n, little, i)
      {
        label step:
        WriteByte(off, Place(little, n, i), n, value, i);
        forall a: Assignment ensures SplicedTo(old(Contents(a)), Contents(a), Eval(off, a), Eval(value, a), n, little, i + 1) {
          assert SplicedTo(old(Contents(a)), old@step(Contents(a)), Eval(off, a), Eval(value, a), n, little, i);
          SplicedNext(old(Contents(a)), old@step(Contents(a)), Contents(a), Eval(off, a), Eval(value, a), n, little, i);
        }
      }
      forall a: Assignment | Eval(off, a) + n <= size
        ensures Contents(a) == Spliced(old(Contents(a)), Eval(off, a), Eval(value, a), n, little)
      {
        SplicedAll(old(Contents(a)), Contents(a), Eval(off, a), Eval(value, a), n, little);
      }
    }

    /** Store byte `i` of `value` at `idx` past a symbolic offset. */
    method WriteByte(off: Expr, idx: nat, n: nat, value: Expr, i: nat)
      requires Valid() && OfWidth(off, INT32) && idx < n <= size && !Plus(off, idx).Constant?
      requires WF(value) && 8 * i + 8 <= Width(value)
      modifies this`head, this`concreteStore, this`knownSymbolics, this`concreteMask, this`unflushedMask
      ensures Valid()
      ensures forall a: Assignment | Eval(off, a) + n <= size ::
                Contents(a) == old(Contents(a))[Eval(off, a) + idx := Slice(Eval(value, a), 8 * i, 8)]
    {
      hide Valid, Shape, Contents, Eval, WF, Width, Plus, Pow2, ExtractCreate, Slice;
      var byte := ExtractCreate(value, 8 * i, INT8);
      Write8Symbolic(Plus(off, idx), byte);
      forall a: Assignment | Eval(off, a) + n <= size
        ensures Contents(a) == old(Contents(a))[Eval(off, a) + idx := Slice(Eval(value, a), 8 * i, 8)]
      {
        ExtractSound(value, 8 * i, INT8, a);
        PlusSound(off, idx, size, a);
      }
    }
  }

  // ---------------------------------------------------------------- values and offsets

  /** The widths that may be read and written: one bit, or whole bytes. */
  predicate ByteWidth(w: nat) {
    w == BOOL || (w > 0 && w % 8 == 0)
  }

  function NumBytes(w: nat): (n: nat)
    requires ByteWidth(w)
    ensures n > 0 && (w != BOOL ==> w == 8 * n)
  {
    if w == BOOL then 1 else w / 8
  }

  /** The value of width `w` stored at `off`. */
  function ReadValue(s: seq<nat>, off: nat, w: nat, little: bool): (v: nat)
    requires ByteWidth(w) && off + NumBytes(w) <= |s|
    ensures w == BOOL ==> v == s[off] % 2
    ensures w != BOOL ==> v == var bytes := s[off..off + NumBytes(w)]; if little then LittleEndian(bytes) else BigEndian(bytes)
  {
    hide LittleEndian, BigEndian;
    assert w == BOOL ==> Slice(s[off], 0, BOOL) == s[off] % 2 by {
      SliceFromZero(s[off], BOOL);
      Pow2Byte();
    }
    AssembledMeaning(s, off, NumBytes(w), little, NumBytes(w));
    if w == BOOL then Slice(s[off], 0, BOOL) else Assembled(s, off, NumBytes(w), little, NumBytes(w))
  }

  /** `offset + idx` as the read and write loops build it. */
  function Plus(off: Expr, idx: nat): (e: Expr)
    requires OfWidth(off, INT32) && idx < Pow2(INT32)
    ensures OfWidth(e, INT32)
  {
    AddCreate(off, Constant(idx, INT32))
  }

  /** What the source demands of an offset: a constant one is in bounds, and a symbolic one stays
      symbolic when a byte index is added to it. */
  predicate Addressable(offset: Expr, n: nat, size: nat)
    requires WF(offset) && size <= Pow2(INT32)
  {
    var off := ZExtCreate(offset, INT32);
    if off.Constant? then off.value + n <= size
    else n <= size && forall idx | 0 <= idx < n :: !Plus(off, idx).Constant?
  }

  predicate InBounds(offset: Expr, n: nat, size: nat, a: Assignment)
    requires WF(offset)
  {
    Wrap(Eval(offset, a), INT32) + n <= size
  }

  lemma TruncatedOffset(offset: Expr)
    requires WF(offset)
    ensures forall a: Assignment :: Eval(ZExtCreate(offset, INT32), a) == Wrap(Eval(offset, a), INT32)
  {
    forall a: Assignment ensures Eval(ZExtCreate(offset, INT32), a) == Wrap(Eval(offset, a), INT32) {
      ZExtSound(offset, INT32, a);
    }
  }

  /** A value of one byte or one bit is a byte. */
  lemma ByteBound(value: Expr, a: Assignment)
    requires WF(value) && Width(value) in {BOOL, INT8}
    ensures Eval(value, a) < Pow2(8) == 256
  {
    hide Eval;
    Pow2Byte();
  }

  lemma SliceByte(v: nat, off: nat)
    ensures Slice(v, off, 8) < 256
  {
    Pow2Byte();
  }

  lemma ConstantOffset(off: Expr)
    requires OfWidth(off, INT32) && off.Constant?
    ensures forall a: Assignment :: Eval(off, a) == off.value
  {
    forall a: Assignment ensures Eval(off, a) == off.value {
      ConstantNode(off, a);
    }
  }

  lemma PlusSound(off: Expr, idx: nat, size: nat, a: Assignment)
    requires OfWidth(off, INT32) && Eval(off, a) + idx < size <= Pow2(INT32)
    ensures Eval(Plus(off, idx), a) == Eval(off, a) + idx
  {
    hide Eval, AddCreate, Wrap, Pow2;
    AddSound(off, Constant(idx, INT32), a);
    ConstantNode(Constant(idx, INT32), a);
    WrapSmall(Eval(off, a) + idx, INT32);
  }

  /** Inside the array, `after` is `before` with the `k` low bytes of `v` stored. */
  predicate SplicedTo(before: seq<nat>, after: seq<nat>, off: nat, v: nat, n: nat, little: bool, k: nat) {
    k <= n && |after| == |before| && (off + n <= |before| ==> after == PartlySpliced(before, off, v, n, little, k))
  }

  lemma SplicedNone(s: seq<nat>, off: nat, v: nat, n: nat, little: bool)
    ensures SplicedTo(s, s, off, v, n, little, 0)
  {
  }

  lemma SplicedNext(before: seq<nat>, mid: seq<nat>, after: seq<nat>, off: nat, v: nat, n: nat, little: bool, k: nat)
    requires k < n && SplicedTo(before, mid, off, v, n, little, k) && |after| == |before|
    requires off + n <= |before| ==> after == mid[off + Place(little, n, k) := Slice(v, 8 * k, 8)]
    ensures SplicedTo(before, after, off, v, n, little, k + 1)
  {
    hide Slice, PartlySpliced;
    if off + n <= |before| {
      NextSpliced(before, off, v, n, little, k);
    }
  }

  lemma SplicedAll(before: seq<nat>, after: seq<nat>, off: nat, v: nat, n: nat, little: bool)
    requires SplicedTo(before, after, off, v, n, little, n) && off + n <= |before|
    ensures after == Spliced(before, off, v, n, little)
  {
    hide PartlySpliced, Spliced;
    AllSpliced(before, off, v, n, little);
  }

  /** Inside the array, `v` is the value of the `k` low bytes. */
  predicate AssembledTo(s: seq<nat>, off: nat, n: nat, little: bool, k: nat, v: nat) {
    k <= n && (off + n <= |s| ==> v == Assembled(s, off, n, little, k))
  }

  lemma AssembledOne(s: seq<nat>, off: nat, n: nat, little: bool, v: nat)
    requires 0 < n && (off + n <= |s| ==> v == s[off + Place(little, n, 0)])
    ensures AssembledTo(s, off, n, little, 1, v)
  {
    hide Assembled;
    if off + n <= |s| {
      AssembledFirst(s, off, n, little);
    }
  }

  lemma AssembledNext(s: seq<nat>, off: nat, n: nat, little: bool, k: nat, low: nat, byte: nat)
    requires k < n && AssembledTo(s, off, n, little, k, low) && (off + n <= |s| ==> byte == s[off + Place(little, n, k)])
    ensures AssembledTo(s, off, n, little, k + 1, byte * Pow2(8 * k) + low)
  {
    hide Pow2;
  }

  lemma AssembledAll(s: seq<nat>, off: nat, n: nat, little: bool, v: nat)
    requires AssembledTo(s, off, n, little, n, v) && off + n <= |s|
    ensures v == Assembled(s, off, n, little, n)
  {
  }

  lemma AssembledFirst(s: seq<nat>, off: nat, n: nat, little: bool)
    requires 0 < n && off + n <= |s|
    ensures Assembled(s, off, n, little, 1) == s[off + Place(little, n, 0)]
  {
    assert Assembled(s, off, n, little, 0) == 0 && Pow2(0) == 1;
  }

  lemma OneByteStored(s: seq<nat>, off: nat, v: nat, little: bool)
    requires off < |s| && v < Pow2(8)
    ensures Store(s, off, v) == Spliced(s, off, v, 1, little)
  {
    OneByteSpliced(s, off, v, little);
  }

  /** The byte array after a write at `i`. */
  function Store(s: seq<nat>, i: nat, v: nat): (r: seq<nat>)
    ensures |r| == |s|
  {
    if i < |s| then s[i := v] else s
  }

  /** Element `i` after the first `k` writes to an array of zeros. */
  ghost function AfterWrites(ws: seq<Write>, k: nat, size: nat, i: nat, a: Assignment): nat
    requires k <= |ws| && WFWrites(FromWrites(ws), size)
  {
    WFWritesPrefix(ws, k, size);
    WFWritesUpdates(FromWrites(ws[..k]), size);
    ConstantArrayWF(Zeros(size));
    EvalUpdates(FromWrites(ws[..k]), ConstantArray(Zeros(size)), i, a)
  }

  lemma AfterWrite(ws: seq<Write>, k: nat, size: nat, i: nat, a: Assignment)
    requires k < |ws| && WFWrites(FromWrites(ws), size)
    ensures WF(ws[k].0) && WF(ws[k].1)
    ensures AfterWrites(ws, k + 1, size, i, a) == if Eval(ws[k].0, a) == i then Eval(ws[k].1, a) else AfterWrites(ws, k, size, i, a)
  {
    hide Eval;
    WFWritesPrefix(ws, k, size);
    WFWritesPrefix(ws, k + 1, size);
    WFWritesUpdates(FromWrites(ws[..k + 1]), size);
  }

  /** Pull constant writes off the front, oldest first, into an array of bytes. */
  method ConstantPrefix(ws: seq<Write>, size: nat) returns (contents: seq<nat>, begin: nat)
    requires WFWrites(FromWrites(ws), size)
    ensures begin <= |ws| && |contents| == size && Bytes(contents)
    ensures forall i, a: Assignment | 0 <= i < size :: AfterWrites(ws, begin, size, i, a) == contents[i]
  {
    hide Eval, WF, Width;
    contents := Zeros(size);
    begin := 0;
    while begin < |ws|
      invariant 0 <= begin <= |ws| && |contents| == size && Bytes(contents)
      invariant forall i, a: Assignment | 0 <= i < size :: AfterWrites(ws, begin, size, i, a) == contents[i]
    {
      var (index, value) := ws[begin];
      if !index.Constant? || !value.Constant? {
        break;
      }
      WFWritesPrefix(ws, begin, size);
      ConstantByte(value);
      var next, k := contents[index.value := value.value], begin + 1;
      forall i, a: Assignment | 0 <= i < size
        ensures AfterWrites(ws, k, size, i, a) == next[i]
      {
        AfterWrite(ws, begin, size, i, a);
        ConstantNode(index, a);
        ConstantNode(value, a);
      }
      contents, begin := next, k;
    }
  }

  lemma ConstantByte(c: Expr)
    requires c.Constant? && OfWidth(c, INT8)
    ensures c.value < 256
  {
    Pow2Byte();
  }

  /** A constant array and a list over it that say the same as `us` over zeros. */
  method ConstantRoot(us: Updates, size: nat) returns (contents: seq<nat>, list: Updates)
    requires WFWrites(us, size)
    ensures |contents| == size && ByteArray(ConstantArray(contents)) && ByteArray(ConstantArray(Zeros(size)))
    ensures WFWrites(list, size) && WFUpdates(list, INT32, INT8) && WFUpdates(us, INT32, INT8)
    ensures forall i, a: Assignment | 0 <= i < size ::
              EvalUpdates(list, ConstantArray(contents), i, a) == EvalUpdates(us, ConstantArray(Zeros(size)), i, a)
  {
    hide Eval, EvalUpdates, WF, Width;
    WritesRoundTrip(us);
    var writes := Writes(us);
    assert writes[..|writes|] == writes;
    var begin;
    contents, begin := ConstantPrefix(writes, size);
    ConstantArrayWF(Zeros(size));
    list := ApplyRest(writes, begin, contents);
    WFWritesUpdates(us, size);
  }

  /** Put the remaining writes on top of the new array. */
  method ApplyRest(ws: seq<Write>, begin: nat, contents: seq<nat>) returns (list: Updates)
    requires begin <= |ws| && WFWrites(FromWrites(ws), |contents|) && Bytes(contents)
    requires forall i, a: Assignment | 0 <= i < |contents| :: AfterWrites(ws, begin, |contents|, i, a) == contents[i]
    ensures WFWrites(list, |contents|) && WFUpdates(list, INT32, INT8) && ByteArray(ConstantArray(contents))
    ensures forall i, a: Assignment | 0 <= i < |contents| ::
              EvalUpdates(list, ConstantArray(contents), i, a) == AfterWrites(ws, |ws|, |contents|, i, a)
  {
    hide Eval, WF, Width;
    ConstantArrayWF(contents);
    var size := |contents|;
    list := NoUpdates;
    for k := begin to |ws|
      invariant WFWrites(list, size) && WFUpdates(list, INT32, INT8)
      invariant forall i, a: Assignment | 0 <= i < size ::
                  EvalUpdates(list, ConstantArray(contents), i, a) == AfterWrites(ws, k, size, i, a)
    {
      WFWritesPrefix(ws, k, size);
      var before := list;
      list := Update(ws[k].0, ws[k].1, before);
      forall i, a: Assignment | 0 <= i < size
        ensures EvalUpdates(list, ConstantArray(contents), i, a) == AfterWrites(ws, k + 1, size, i, a)
      {
        AfterWrite(ws, k, size, i, a);
      }
    }
  }
}
