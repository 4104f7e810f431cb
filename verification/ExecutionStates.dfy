/** `ExecutionState::merge`: two states at the same place become one. */
module ExecutionStates {
  import opened BitVector
  import opened Expressions
  import opened SmartConstructors
  import opened ConstructorSoundness
  import opened Basics
  import opened Constraints
  import opened Solvers
  import opened ConstraintMerging
  import opened ObjectStates
  import opened AddressSpaces
  import opened MemoryForests

  /** The bytes of `x` if the condition holds, those of `y` otherwise. */
  function Chosen<T>(inA: bool, x: T, y: T): T {
    if inA then x else y
  }

  /** The first `i` bytes chosen, the others those of `x`. */
  function Blend(x: seq<nat>, y: seq<nat>, inA: bool, i: nat): (r: seq<nat>)
    requires i <= |x| == |y|
    ensures |r| == |x|
  {
    Chosen(inA, x, y)[..i] + x[i..]
  }

  lemma Advance(x: seq<nat>, y: seq<nat>, inA: bool, i: nat)
    requires i < |x| == |y|
    ensures Blend(x, y, inA, i)[i := Chosen(inA, Blend(x, y, inA, i)[i], y[i])] == Blend(x, y, inA, i + 1)
  {
  }

  lemma BlendEnds(x: seq<nat>, y: seq<nat>, inA: bool)
    requires |x| == |y|
    ensures Blend(x, y, inA, 0) == x && Blend(x, y, inA, |x|) == Chosen(inA, x, y)
  {
  }

  /** Replace byte `i` by the choice between it and that of another object. */
  method MergeByte(wos: ObjectState, other: ObjectState, i: nat, inA: Expr)
    requires wos.Valid() && other.Valid() && wos != other && i < wos.size == other.size && OfWidth(inA, BOOL)
    modifies wos`root, wos`head, wos`concreteStore, wos`knownSymbolics, wos`concreteMask, wos`unflushedMask, other`root, other`head
    ensures wos.Valid() && other.Valid()
    ensures forall a: Assignment :: other.Contents(a) == old(other.Contents(a))
    ensures forall a: Assignment ::
      wos.Contents(a) == old(wos.Contents(a))[i := Chosen(Holds(inA, a), old(wos.Contents(a))[i], old(other.Contents(a))[i])]
  {
    hide ObjectState.Valid, ObjectState.Shape, ObjectState.Contents, Eval, WF, Width, SelectCreate;
    var av := wos.Read8(i);
    var bv := other.Read8(i);
    var choice := SelectCreate(inA, av, bv);
    forall a: Assignment ensures Eval(choice, a) == Chosen(Holds(inA, a), Eval(av, a), Eval(bv, a)) {
      SelectSound(inA, av, bv, a);
    }
    wos.Write8(i, choice);
  }

  /** Replace each byte of an object by the choice between it and the byte of another. */
  method MergeBytes(wos: ObjectState, other: ObjectState, inA: Expr)
    requires wos.Valid() && other.Valid() && wos != other && wos.size == other.size && OfWidth(inA, BOOL)
    modifies wos`root, wos`head, wos`concreteStore, wos`knownSymbolics, wos`concreteMask, wos`unflushedMask, other`root, other`head
    ensures wos.Valid() && other.Valid()
    ensures forall a: Assignment :: other.Contents(a) == old(other.Contents(a))
    ensures forall a: Assignment :: wos.Contents(a) == Chosen(Holds(inA, a), old(wos.Contents(a)), old(other.Contents(a)))
  {
    hide ObjectState.Valid, ObjectState.Shape, ObjectState.Contents, Eval, WF, Width, Holds, Chosen, Blend;
    forall a: Assignment
      ensures wos.Contents(a) == Blend(wos.Contents(a), other.Contents(a), Holds(inA, a), 0)
      ensures Blend(wos.Contents(a), other.Contents(a), Holds(inA, a), wos.size) == Chosen(Holds(inA, a), wos.Contents(a), other.Contents(a))
    {
      BlendEnds(wos.Contents(a), other.Contents(a), Holds(inA, a));
    }
    for i := 0 to wos.size
      invariant wos.Valid() && other.Valid()
      invariant forall a: Assignment :: other.Contents(a) == old(other.Contents(a))
      invariant forall a: Assignment :: wos.Contents(a) == Blend(old(wos.Contents(a)), old(other.Contents(a)), Holds(inA, a), i)
    {
      MergeByte(wos, other, i, inA);
      forall a: Assignment
        ensures wos.Contents(a) == Blend(old(wos.Contents(a)), old(other.Contents(a)), Holds(inA, a), i + 1)
      {
        Advance(old(wos.Contents(a)), old(other.Contents(a)), Holds(inA, a), i);
      }
    }
  }

  /** Memory `x` where the objects in `done` are chosen between `x` and `y`. */
  function Mixed(x: Memory, y: Memory, done: set<nat>, inA: bool): (r: Memory) {
    map k | k in x :: if k in done && k in y then Chosen(inA, x[k], y[k]) else x[k]
  }

  ghost function MixedView(x: View, y: View, done: set<nat>, inA: Expr): (r: View)
    requires OfWidth(inA, BOOL)
  {
    imap a: Assignment | a in x && a in y :: Mixed(x[a], y[a], done, Holds(inA, a))
  }

  lemma MixedTwice(x: View, y: View, done: set<nat>, more: set<nat>, inA: Expr)
    requires OfWidth(inA, BOOL) && done !! more
    ensures MixedView(MixedView(x, y, done, inA), y, more, inA) == MixedView(x, y, done + more, inA)
  {
    hide Eval, WF, Width, Holds, Chosen;
    forall a: Assignment | a in x && a in y
      ensures Mixed(Mixed(x[a], y[a], done, Holds(inA, a)), y[a], more, Holds(inA, a)) == Mixed(x[a], y[a], done + more, Holds(inA, a))
    {
    }
  }

  /** Choosing at one object. */
  lemma MixedOne(x: View, y: View, z: View, mo: nat, inA: Expr)
    requires OfWidth(inA, BOOL) && forall a: Assignment :: a in x && a in y && a in z && mo in x[a] && mo in y[a]
    requires forall a: Assignment :: z[a] == x[a][mo := Chosen(Holds(inA, a), x[a][mo], y[a][mo])]
    ensures z == MixedView(x, y, {mo}, inA)
  {
    hide Eval, WF, Width, Holds, Chosen;
    forall a: Assignment ensures z[a] == Mixed(x[a], y[a], {mo}, Holds(inA, a)) {
    }
  }

  /** Memory `z` is `x` with the object at `mo` chosen between `x` and `y`. */
  predicate ChosenAt(x: Memory, y: Memory, z: Memory, mo: nat, inA: bool) {
    mo in x && mo in y && z == x[mo := Chosen(inA, x[mo], y[mo])]
  }

  /** Merge the object at `mo` of space `t` into that of `s`, which no other binding has. */
  method MergeOwned(s: AddressSpace, t: AddressSpace, mo: nat, inA: Expr, ghost spaces: set<AddressSpace>)
    requires AllValid(spaces) && s in spaces && t in spaces && s != t && OfWidth(inA, BOOL)
    requires mo in s.objects && mo in t.objects && s.objects[mo].size == t.objects[mo].size && Exclusive(spaces, s, mo)
    modifies s.objects[mo], t.objects[mo]
    ensures AllValid(spaces) && (old(Owned(spaces)) ==> Owned(spaces))
    ensures forall u | u in spaces && u != s :: PictureOf(u.objects) == old(PictureOf(u.objects))
    ensures Protected(s.objects) == old(Protected(s.objects))
    ensures forall a: Assignment :: ChosenAt(old(MemoryOf(s.objects, a)), old(MemoryOf(t.objects, a)), MemoryOf(s.objects, a), mo, Holds(inA, a))
  {
    hide Sound, Apart, ObjectState.Valid, ObjectState.Contents, ObjectState.Shape, WF, Width, Holds, Chosen, MemoryOf, ViewOf;
    assert ValidTable(s.objects) && ValidTable(t.objects);
    MergeBytes(s.objects[mo], t.objects[mo], inA);
    forall u | u in spaces && u != s ensures PictureOf(u.objects) == old(PictureOf(u.objects)) {
      assert old(ValidTable(u.objects)) && ValidTable(u.objects);
      u.KeepsView();
    }
    s.OneObject(mo);
  }

  /** The same in terms of views. */
  method MergeView(s: AddressSpace, t: AddressSpace, mo: nat, inA: Expr, ghost spaces: set<AddressSpace>)
    requires AllValid(spaces) && s in spaces && t in spaces && s != t && OfWidth(inA, BOOL)
    requires mo in s.objects && mo in t.objects && s.objects[mo].size == t.objects[mo].size && Exclusive(spaces, s, mo)
    modifies s.objects[mo], t.objects[mo]
    ensures AllValid(spaces) && (old(Owned(spaces)) ==> Owned(spaces))
    ensures forall u | u in spaces && u != s :: PictureOf(u.objects) == old(PictureOf(u.objects))
    ensures Protected(s.objects) == old(Protected(s.objects))
    ensures ViewOf(s.objects) == MixedView(old(ViewOf(s.objects)), old(ViewOf(t.objects)), {mo}, inA)
  {
    hide Owned, ValidTable, Exclusive, WF, Width, Holds, Chosen, MemoryOf, ViewOf, PictureOf, Protected, MixedView;
    assert ValidTable(s.objects) && ValidTable(t.objects);
    ViewAt(s.objects);
    ViewAt(t.objects);
    MergeOwned(s, t, mo, inA, spaces);
    assert ValidTable(s.objects);
    ViewAt(s.objects);
    MixedOne(old(ViewOf(s.objects)), old(ViewOf(t.objects)), ViewOf(s.objects), mo, inA);
  }

  /** The same memory objects are bound. */
  predicate SameObjects(m: Table, n: Table) {
    m.Keys == n.Keys && forall k | k in m :: m[k].size == n[k].size
  }

  /** The addresses at which the tables bind different object states. */
  function Mutated(m: Table, n: Table): set<nat> {
    set k | k in m && k in n && m[k] != n[k]
  }

  lemma SameObjectsUpdate(m: Table, n: Table, mo: nat, os: ObjectState)
    requires SameObjects(m, n) && mo in m && os.size == m[mo].size
    ensures SameObjects(m[mo := os], n)
  {
  }

  /** Merge the object at `mo` of space `t` into that of `s`. */
  method MergeObject(s: AddressSpace, t: AddressSpace, mo: nat, inA: Expr, ghost spaces: set<AddressSpace>)
    requires Owned(spaces) && AllValid(spaces) && s in spaces && t in spaces && s != t && OfWidth(inA, BOOL)
    requires mo in s.objects && mo !in Protected(s.objects) && SameObjects(s.objects, t.objects)
    modifies s`objects, s.objects[mo], t.objects[mo]
    ensures Owned(spaces) && AllValid(spaces) && SameObjects(s.objects, t.objects)
    ensures s.objects.Keys == old(s.objects.Keys) && fresh(s.objects.Values - old(s.objects.Values))
    ensures forall u | u in spaces && u != s :: PictureOf(u.objects) == old(PictureOf(u.objects))
    ensures Protected(s.objects) == old(Protected(s.objects))
    ensures ViewOf(s.objects) == MixedView(old(ViewOf(s.objects)), old(ViewOf(t.objects)), {mo}, inA)
  {
    hide Owned, AllValid, Exclusive, WF, Width, MixedView, ViewOf, Protected;
    MakeWriteable(s, mo, spaces);
    MergeView(s, t, mo, inA, spaces);
    SameObjectsUpdate(old(s.objects), t.objects, mo, s.objects[mo]);
  }

  lemma OneLess(mutated: set<nat>, pending: set<nat>, mo: nat)
    requires mo in pending && pending <= mutated
    ensures mutated - pending + {mo} == mutated - (pending - {mo}) && mo !in mutated - pending
  {
  }

  lemma MixedNone(x: View, y: View, inA: Expr)
    requires OfWidth(inA, BOOL) && forall a: Assignment :: a in x && a in y
    ensures MixedView(x, y, {}, inA) == x
  {
    hide Eval, WF, Width, Holds, Chosen;
    forall a: Assignment ensures Mixed(x[a], y[a], {}, Holds(inA, a)) == x[a] {
    }
  }

  /** Memories that agree outside `done` are chosen between. */
  lemma MixedAll(x: View, y: View, done: set<nat>, inA: Expr, a: Assignment)
    requires OfWidth(inA, BOOL) && a in x && a in y && x[a].Keys == y[a].Keys
    requires forall k | k in x[a] && k !in done :: x[a][k] == y[a][k]
    ensures a in MixedView(x, y, done, inA) && MixedView(x, y, done, inA)[a] == Chosen(Holds(inA, a), x[a], y[a])
  {
    hide Eval, WF, Width, Holds;
  }

  /** The objects in `done` are merged: `x` and `y` are the views before any was. */
  ghost predicate Progress(s: AddressSpace, t: AddressSpace, inA: Expr, spaces: set<AddressSpace>, x: View, y: View, done: set<nat>)
    reads spaces, ObjectsOf(spaces)
  {
    && Owned(spaces) && AllValid(spaces) && s in spaces && t in spaces && s != t && OfWidth(inA, BOOL)
    && SameObjects(s.objects, t.objects)
    && ViewOf(s.objects) == MixedView(x, y, done, inA) && ViewOf(t.objects) == y
  }

  lemma Start(s: AddressSpace, t: AddressSpace, inA: Expr, spaces: set<AddressSpace>)
    requires Owned(spaces) && AllValid(spaces) && s in spaces && t in spaces && s != t && OfWidth(inA, BOOL)
    requires SameObjects(s.objects, t.objects)
    ensures Progress(s, t, inA, spaces, ViewOf(s.objects), ViewOf(t.objects), {})
  {
    hide Owned, ValidTable, WF, Width, MixedView, ViewOf, MemoryOf;
    ViewAt(s.objects);
    ViewAt(t.objects);
    MixedNone(ViewOf(s.objects), ViewOf(t.objects), inA);
  }

  /** Merge one more object. */
  method MergeNext(s: AddressSpace, t: AddressSpace, mo: nat, inA: Expr, ghost spaces: set<AddressSpace>,
      ghost x: View, ghost y: View, ghost done: set<nat>)
    requires s in spaces && mo !in done && mo in s.objects && mo in t.objects && mo !in Protected(s.objects)
    requires Progress(s, t, inA, spaces, x, y, done)
    modifies s`objects, s.objects[mo], t.objects[mo]
    ensures s.objects.Keys == old(s.objects.Keys) && fresh(s.objects.Values - old(s.objects.Values))
    ensures Progress(s, t, inA, spaces, x, y, done + {mo})
    ensures forall u | u in spaces && u != s :: PictureOf(u.objects) == old(PictureOf(u.objects))
    ensures Protected(s.objects) == old(Protected(s.objects))
  {
    hide Owned, WF, Width, MixedView, ViewOf, AllValid;
    MergeObject(s, t, mo, inA, spaces);
    MixedTwice(x, y, done, {mo}, inA);
  }

  /** Merge the objects in `mutated`. */
  method MergeObjects(s: AddressSpace, t: AddressSpace, mutated: set<nat>, inA: Expr, ghost spaces: set<AddressSpace>, ghost x: View, ghost y: View)
    requires s != t && Progress(s, t, inA, spaces, x, y, {}) && mutated <= s.objects.Keys && mutated <= t.objects.Keys
    requires s in spaces && mutated !! Protected(s.objects)
    modifies s`objects, s.objects.Values, t.objects.Values
    ensures Progress(s, t, inA, spaces, x, y, mutated)
    ensures forall u | u in spaces && u != s :: PictureOf(u.objects) == old(PictureOf(u.objects))
    ensures Protected(s.objects) == old(Protected(s.objects))
  {
    hide Progress, ViewOf;
    var pending := mutated;
    ghost var footprint := s.objects.Values;
    assert mutated - pending == {};
    while pending != {}
      invariant pending <= mutated && mutated <= s.objects.Keys && t.objects == old(t.objects)
      invariant Protected(s.objects) == old(Protected(s.objects))
      invariant Progress(s, t, inA, spaces, x, y, mutated - pending)
      invariant fresh(s.objects.Values - footprint)
      invariant forall u | u in spaces && u != s :: PictureOf(u.objects) == old(PictureOf(u.objects))
    {
      var mo :| mo in pending;
      OneLess(mutated, pending, mo);
      assert t.objects[mo] in old(t.objects.Values);
      MergeNext(s, t, mo, inA, spaces, x, y, mutated - pending);
      pending := pending - {mo};
    }
    assert mutated - pending == mutated;
  }

  /** Under every assignment, memory `z` is `x` if the condition holds and `y` otherwise. */
  ghost predicate ChosenView(x: View, y: View, z: View, inA: Expr) {
    && OfWidth(inA, BOOL) && (forall a: Assignment :: a in x && a in y && a in z)
    && forall a: Assignment :: z[a] == Chosen(Holds(inA, a), x[a], y[a])
  }

  /** Merge the memories; what is bound in both spaces as the same object state needs nothing. */
  method MergeMemory(s: AddressSpace, t: AddressSpace, inA: Expr, ghost spaces: set<AddressSpace>)
    requires Owned(spaces) && AllValid(spaces) && s in spaces && t in spaces && s != t && OfWidth(inA, BOOL)
    requires SameObjects(s.objects, t.objects)
    requires Mutated(s.objects, t.objects) !! Protected(s.objects)
    modifies s`objects, s.objects.Values, t.objects.Values
    ensures Owned(spaces) && AllValid(spaces)
    ensures forall u | u in spaces && u != s :: PictureOf(u.objects) == old(PictureOf(u.objects))
    ensures Protected(s.objects) == old(Protected(s.objects))
    ensures ChosenView(old(ViewOf(s.objects)), old(ViewOf(t.objects)), ViewOf(s.objects), inA)
  {
    hide Owned, ValidTable, AllValid, WF, Width, MixedView, ViewOf, ChosenView, Protected;
    var mutated := Mutated(s.objects, t.objects);
    hide SameObjects, Mutated;
    Agreeing(s, t, mutated, spaces);
    Start(s, t, inA, spaces);
    ghost var x, y := ViewOf(s.objects), ViewOf(t.objects);
    MergeObjects(s, t, mutated, inA, spaces, x, y);
    AllChosen(x, y, mutated, inA);
  }

  /** Memories that agree outside `done`. */
  ghost predicate Agree(x: View, y: View, done: set<nat>) {
    && (forall a: Assignment :: a in x && a in y && x[a].Keys == y[a].Keys)
    && (forall a: Assignment, k | k in x[a] && k !in done :: x[a][k] == y[a][k])
  }

  lemma Agreeing(s: AddressSpace, t: AddressSpace, mutated: set<nat>, spaces: set<AddressSpace>)
    requires AllValid(spaces) && s in spaces && t in spaces && SameObjects(s.objects, t.objects)
    requires mutated == Mutated(s.objects, t.objects) && mutated !! Protected(s.objects)
    ensures Agree(ViewOf(s.objects), ViewOf(t.objects), mutated)
    ensures mutated <= s.objects.Keys == t.objects.Keys
  {
    hide ValidTable, MemoryOf, ViewOf, ObjectState.Shape, ObjectState.Contents, ObjectState.Valid;
    ViewAt(s.objects);
    ViewAt(t.objects);
  }

  lemma AllChosen(x: View, y: View, done: set<nat>, inA: Expr)
    requires OfWidth(inA, BOOL) && Agree(x, y, done)
    ensures ChosenView(x, y, MixedView(x, y, done, inA), inA)
  {
    hide WF, Width, Holds, Chosen, MixedView;
    forall a: Assignment
      ensures a in MixedView(x, y, done, inA) && MixedView(x, y, done, inA)[a] == Chosen(Holds(inA, a), x[a], y[a])
    {
      MixedAll(x, y, done, inA, a);
    }
  }

  // ---------------------------------------------------------------- registers

  /** A stack frame: where it returns to, its function, and its registers. */
  datatype StackFrame = StackFrame(caller: nat, kf: nat, locals: seq<Option<Expr>>)

  predicate WFLocals(locals: seq<Option<Expr>>) {
    forall i | 0 <= i < |locals| && locals[i].Some? :: WF(locals[i].value)
  }

  /** The registers of the same function have the same number and widths. */
  predicate SameTypes(x: seq<Option<Expr>>, y: seq<Option<Expr>>) {
    && WFLocals(x) && WFLocals(y) && |x| == |y|
    && forall i | 0 <= i < |x| && x[i].Some? && y[i].Some? :: Width(x[i].value) == Width(y[i].value)
  }

  predicate SameShape(x: StackFrame, y: StackFrame) {
    x.caller == y.caller && x.kf == y.kf
  }

  /** Register `z` is the choice between `x` and `y`; a register missing on either side stays as it is. */
  ghost predicate MergedRegister(x: Option<Expr>, y: Option<Expr>, z: Option<Expr>, inA: Expr) {
    if x.None? || y.None? then z == x
    else
      && z.Some? && WF(x.value) && WF(y.value) && OfWidth(inA, BOOL) && OfWidth(z.value, Width(x.value))
      && forall a: Assignment :: Eval(z.value, a) == Chosen(Holds(inA, a), Eval(x.value, a), Eval(y.value, a))
  }

  ghost predicate MergedLocals(x: seq<Option<Expr>>, y: seq<Option<Expr>>, z: seq<Option<Expr>>, inA: Expr) {
    |x| == |y| == |z| && forall i | 0 <= i < |x| :: MergedRegister(x[i], y[i], z[i], inA)
  }

  lemma SelectMerges(x: Expr, y: Expr, inA: Expr)
    requires SameWidth(x, y) && OfWidth(inA, BOOL)
    ensures MergedRegister(Some(x), Some(y), Some(SelectCreate(inA, x, y)), inA)
  {
    hide Eval, SelectCreate, Holds;
    forall a: Assignment ensures Eval(SelectCreate(inA, x, y), a) == Chosen(Holds(inA, a), Eval(x, a), Eval(y, a)) {
      SelectSound(inA, x, y, a);
    }
  }

  method MergeLocals(x: seq<Option<Expr>>, y: seq<Option<Expr>>, inA: Expr) returns (z: seq<Option<Expr>>)
    requires SameTypes(x, y) && OfWidth(inA, BOOL)
    ensures MergedLocals(x, y, z, inA)
  {
    hide WF, Width, Eval, Holds, SelectCreate, Chosen;
    z := x;
    for i := 0 to |x|
      invariant |z| == |x| && (forall k | 0 <= k < i :: MergedRegister(x[k], y[k], z[k], inA))
      invariant forall k | i <= k < |x| :: z[k] == x[k]
    {
      if x[i].Some? && y[i].Some? {
        SelectMerges(x[i].value, y[i].value, inA);
        z := z[i := Some(SelectCreate(inA, x[i].value, y[i].value))];
      }
    }
  }

  predicate SameStacks(x: seq<StackFrame>, y: seq<StackFrame>) {
    |x| == |y| && forall i | 0 <= i < |x| :: SameShape(x[i], y[i])
  }

  /** Frames of one function have registers of the same types. */
  predicate Typed(x: seq<StackFrame>, y: seq<StackFrame>) {
    forall i | 0 <= i < |x| && i < |y| && x[i].kf == y[i].kf :: SameTypes(x[i].locals, y[i].locals)
  }

  ghost predicate MergedStack(x: seq<StackFrame>, y: seq<StackFrame>, z: seq<StackFrame>, inA: Expr) {
    |x| == |y| == |z| && forall i | 0 <= i < |x| :: SameShape(x[i], z[i]) && MergedLocals(x[i].locals, y[i].locals, z[i].locals, inA)
  }

  method CompareStacks(x: seq<StackFrame>, y: seq<StackFrame>) returns (same: bool)
    ensures same <==> SameStacks(x, y)
  {
    var i := 0;
    while i < |x| && i < |y|
      invariant 0 <= i <= |x| && i <= |y| && forall k | 0 <= k < i :: SameShape(x[k], y[k])
    {
      if x[i].caller != y[i].caller || x[i].kf != y[i].kf {
        return false;
      }
      i := i + 1;
    }
    return i == |x| && i == |y|;
  }

  method MergeStack(x: seq<StackFrame>, y: seq<StackFrame>, inA: Expr) returns (z: seq<StackFrame>)
    requires SameStacks(x, y) && Typed(x, y) && OfWidth(inA, BOOL)
    ensures MergedStack(x, y, z, inA)
  {
    hide WF, Width, MergedLocals, SameTypes;
    z := x;
    for i := 0 to |x|
      invariant |z| == |x| && forall k | i <= k < |x| :: z[k] == x[k]
      invariant forall k | 0 <= k < i :: SameShape(x[k], z[k]) && MergedLocals(x[k].locals, y[k].locals, z[k].locals, inA)
    {
      assert SameShape(x[i], y[i]);
      var locals := MergeLocals(x[i].locals, y[i].locals, inA);
      z := z[i := x[i].(locals := locals)];
    }
  }

  // ---------------------------------------------------------------- the merge

  class ExecutionState {
    var pc: nat
    var symbolics: seq<(nat, Array)>
    var stack: seq<StackFrame>
    const addressSpace: AddressSpace
    var constraints: seq<Expr>

    constructor (pc: nat, symbolics: seq<(nat, Array)>, stack: seq<StackFrame>, addressSpace: AddressSpace, constraints: seq<Expr>)
      ensures this.pc == pc && this.symbolics == symbolics && this.stack == stack
      ensures this.addressSpace == addressSpace && this.constraints == constraints
    {
      this.pc, this.symbolics, this.stack := pc, symbolics, stack;
      this.addressSpace, this.constraints := addressSpace, constraints;
    }

    /** The states are at the same place and would resolve addresses alike. */
    ghost predicate Mergeable(b: ExecutionState)
      reads this, b, addressSpace, b.addressSpace
    {
      pc == b.pc && symbolics == b.symbolics && SameStacks(stack, b.stack) && addressSpace.objects.Keys == b.addressSpace.objects.Keys
    }

    /** What a merge compares and computes before it changes anything. */
    method Compare(b: ExecutionState) returns (same: bool, inA: Expr, frames: seq<StackFrame>, cs: seq<Expr>)
      requires Conditions(constraints) && Conditions(b.constraints) && Satisfiable(constraints) && Typed(stack, b.stack)
      ensures same <==> Mergeable(b)
      ensures OfWidth(inA, BOOL)
      ensures same ==> MergedConstraints(constraints, b.constraints, cs, inA) && MergedStack(stack, b.stack, frames, inA)
    {
      hide WF, Width, Eval, Holds, Sat, MergedStack, SameTypes, Typed, SameStacks;
      BoolIsTrue();
      same, inA, frames, cs := false, Expressions.True, [], [];
      if pc != b.pc || symbolics != b.symbolics {
        return;
      }
      var ok, inB;
      ok := CompareStacks(stack, b.stack);
      if !ok || addressSpace.objects.Keys != b.addressSpace.objects.Keys {
        return;
      }
      ok, inA, inB, cs := MergeConstraints(constraints, b.constraints);
      frames := MergeStack(stack, b.stack, inA);
      same := true;
    }

    /** Merge `b` into this state: the inputs of both, and of each input the registers and the memory it
        had. */
    method Merge(b: ExecutionState, ghost spaces: set<AddressSpace>) returns (merged: bool, inA: Expr)
      requires Owned(spaces) && AllValid(spaces) && addressSpace in spaces && b.addressSpace in spaces && addressSpace != b.addressSpace
      requires Conditions(constraints) && Conditions(b.constraints) && Satisfiable(constraints) && Typed(stack, b.stack)
      requires forall k | k in addressSpace.objects && k in b.addressSpace.objects :: addressSpace.objects[k].size == b.addressSpace.objects[k].size
      requires Mergeable(b) ==> Mutated(addressSpace.objects, b.addressSpace.objects) !! Protected(addressSpace.objects)
      modifies this, addressSpace`objects, addressSpace.objects.Values, b.addressSpace.objects.Values
      ensures merged <==> old(Mergeable(b))
      ensures pc == old(pc) && symbolics == old(symbolics)
      ensures Owned(spaces) && AllValid(spaces)
      ensures !merged ==> unchanged(this, addressSpace) && ViewOf(addressSpace.objects) == old(ViewOf(addressSpace.objects))
      ensures forall u | u in spaces && u != addressSpace :: PictureOf(u.objects) == old(PictureOf(u.objects))
      ensures Protected(addressSpace.objects) == old(Protected(addressSpace.objects))
      ensures merged ==> MergedConstraints(old(constraints), old(b.constraints), constraints, inA) && MergedStack(old(stack), old(b.stack), stack, inA)
      ensures merged ==> ChosenView(old(ViewOf(addressSpace.objects)), old(ViewOf(b.addressSpace.objects)), ViewOf(addressSpace.objects), inA)
    {
      hide WF, Width, MergedStack, MergedConstraints, Typed, SameStacks, Satisfiable, Conditions, Sound, Apart, ValidTable, ViewOf, ChosenView;
      var frames, cs;
      merged, inA, frames, cs := Compare(b);
      assert forall u | u in spaces :: PictureOf(u.objects) == old(PictureOf(u.objects));
      if merged {
        assert SameObjects(addressSpace.objects, b.addressSpace.objects);
        Install(b, frames, cs, inA, spaces);
      }
    }

    /** Give this state its merged registers, memory and constraints. */
    method Install(b: ExecutionState, frames: seq<StackFrame>, cs: seq<Expr>, inA: Expr, ghost spaces: set<AddressSpace>)
      requires Owned(spaces) && AllValid(spaces) && addressSpace in spaces && b.addressSpace in spaces && addressSpace != b.addressSpace
      requires OfWidth(inA, BOOL) && SameObjects(addressSpace.objects, b.addressSpace.objects)
      requires Mutated(addressSpace.objects, b.addressSpace.objects) !! Protected(addressSpace.objects)
      modifies this, addressSpace`objects, addressSpace.objects.Values, b.addressSpace.objects.Values
      ensures Owned(spaces) && AllValid(spaces) && stack == frames && constraints == cs
      ensures pc == old(pc) && symbolics == old(symbolics)
      ensures forall u | u in spaces && u != addressSpace :: PictureOf(u.objects) == old(PictureOf(u.objects))
      ensures Protected(addressSpace.objects) == old(Protected(addressSpace.objects))
      ensures ChosenView(old(ViewOf(addressSpace.objects)), old(ViewOf(b.addressSpace.objects)), ViewOf(addressSpace.objects), inA)
    {
      hide WF, Width, Sound, Apart, ValidTable, ViewOf, ChosenView, SameObjects;
      stack, constraints := frames, cs;
      assert forall u | u in spaces :: PictureOf(u.objects) == old(PictureOf(u.objects));
      MergeMemory(addressSpace, b.addressSpace, inA, spaces);
    }
  }

  /** Constraints `cs` admit the inputs of `ca` and of `cb`, and of those `inA` holds for the ones of `ca`. */
  ghost predicate MergedConstraints(ca: seq<Expr>, cb: seq<Expr>, cs: seq<Expr>, inA: Expr) {
    && Conditions(ca) && Conditions(cb) && Conditions(cs) && OfWidth(inA, BOOL)
    && (forall a: Assignment :: Sat(cs, a) <==> Sat(ca, a) || Sat(cb, a))
    && (forall a: Assignment | Sat(cs, a) :: Holds(inA, a) <==> Sat(ca, a))
  }

  lemma BoolIsTrue()
    ensures OfWidth(Expressions.True, BOOL)
  {
    Pow2Byte();
  }
}
