/** The memories of all states of a run: whatever the forks, what one state writes no other state sees. */
module MemoryForests {
  import opened BitVector
  import opened Expressions
  import opened Basics
  import opened ObjectStates
  import opened MemoryRuns
  import opened AddressSpaces

  /** Every object state bound in one of the spaces is valid. */
  ghost predicate AllValid(spaces: set<AddressSpace>)
    reads spaces`objects, ObjectsOf(spaces)
  {
    forall s | s in spaces :: ValidTable(s.objects)
  }

  /** What an operation does to a plain array, and that `e` answers it. The bytes after a write that leaves
      the array are not described. */
  ghost predicate Done(op: Op, before: seq<nat>, after: seq<nat>, e: Expr, a: Assignment) {
    && |after| == |before| <= Pow2(INT32) && WFOp(op, |before|) && WF(e)
    && (!op.WriteOp? ==> after == before)
    && (Within(op, |before|, a) ==> after == Apply(before, op, a) && Answers(e, before, op, a))
  }

  /** The operation at `mo` leaves the rest of the memory alone. */
  ghost predicate Effect(op: Op, mo: nat, before: Memory, after: Memory, e: Expr, a: Assignment) {
    mo in before && mo in after && after == before[mo := after[mo]] && Done(op, before[mo], after[mo], e, a)
  }

  /** An operation at `mo`, told by pictures. */
  ghost predicate Acts(op: Op, mo: nat, p: Picture, p': Picture, e: Expr) {
    && p'.protected == p.protected && (forall a: Assignment :: a in p.view && a in p'.view)
    && forall a: Assignment :: Effect(op, mo, p.view[a], p'.view[a], e, a)
  }

  /** Give `s` an object state of its own at `mo`; every picture stays as it is. */
  method MakeWriteable(s: AddressSpace, mo: nat, ghost spaces: set<AddressSpace>)
    requires Owned(spaces) && AllValid(spaces) && s in spaces && mo in s.objects && mo !in Protected(s.objects)
    modifies s`objects
    ensures Owned(spaces) && AllValid(spaces) && mo in s.objects && s.objects == old(s.objects)[mo := s.objects[mo]]
    ensures Exclusive(spaces, s, mo) && s.objects[mo].size == old(s.objects[mo].size)
    ensures s.objects[mo] == old(s.objects[mo]) || fresh(s.objects[mo])
    ensures forall u | u in spaces :: PictureOf(u.objects) == old(PictureOf(u.objects))
  {
    hide Owned, Exclusive, ObjectState.Valid, ObjectState.Contents, ObjectState.Shape, MemoryOf, ViewOf;
    assert ValidTable(s.objects);
    var wos := s.GetWriteable(mo, spaces);
    assert ValidTable(s.objects);
    forall u | u in spaces && u != s ensures PictureOf(u.objects) == old(PictureOf(u.objects)) {
      assert old(ValidTable(u.objects)) && ValidTable(u.objects);
      u.KeepsView();
    }
    s.OneReplaced(mo);
    s.SameView();
    assert Protected(s.objects) == old(Protected(s.objects));
  }

  /** An operation on the object state that `s` has at `mo`; one that is written to has no other binding. */
  method AccessHere(s: AddressSpace, mo: nat, op: Op, ghost spaces: set<AddressSpace>) returns (e: Expr)
    requires AllValid(spaces) && s in spaces && mo in s.objects && WFOp(op, s.objects[mo].size)
    requires op.WriteOp? ==> Exclusive(spaces, s, mo)
    modifies s.objects[mo]
    ensures AllValid(spaces) && (old(Owned(spaces)) ==> Owned(spaces))
    ensures Protected(s.objects) == old(Protected(s.objects))
    ensures forall u | u in spaces && u != s :: PictureOf(u.objects) == old(PictureOf(u.objects))
    ensures forall a: Assignment :: Effect(op, mo, old(MemoryOf(s.objects, a)), MemoryOf(s.objects, a), e, a)
  {
    hide Sound, Apart, ObjectState.Valid, ObjectState.Contents, ObjectState.Shape, WFOp, Within, Apply, Answers, WF, Pow2, MemoryOf, ViewOf;
    assert ValidTable(s.objects);
    e := Perform(s.objects[mo], op);
    forall u | u in spaces && u != s ensures PictureOf(u.objects) == old(PictureOf(u.objects)) {
      assert old(ValidTable(u.objects)) && ValidTable(u.objects);
      u.KeepsView();
    }
    s.OneObject(mo);
  }

  /** The same told by pictures. */
  method AccessPicture(s: AddressSpace, mo: nat, op: Op, ghost spaces: set<AddressSpace>) returns (e: Expr)
    requires AllValid(spaces) && s in spaces && mo in s.objects && WFOp(op, s.objects[mo].size)
    requires op.WriteOp? ==> Exclusive(spaces, s, mo)
    modifies s.objects[mo]
    ensures AllValid(spaces) && (old(Owned(spaces)) ==> Owned(spaces))
    ensures forall u | u in spaces && u != s :: PictureOf(u.objects) == old(PictureOf(u.objects))
    ensures Acts(op, mo, old(PictureOf(s.objects)), PictureOf(s.objects), e)
  {
    hide Owned, Exclusive, ValidTable, Effect, WFOp, MemoryOf, ViewOf, Protected;
    assert ValidTable(s.objects);
    ViewAt(s.objects);
    e := AccessHere(s, mo, op, spaces);
    assert ValidTable(s.objects);
    ViewAt(s.objects);
  }

  /** One access through an address space: a write goes to an object state of its own, a read, which may
      flush, to the shared one. No other space sees a change. */
  method Access(s: AddressSpace, mo: nat, op: Op, ghost spaces: set<AddressSpace>) returns (e: Expr)
    requires Owned(spaces) && AllValid(spaces) && s in spaces && mo in s.objects && WFOp(op, s.objects[mo].size)
    requires op.WriteOp? ==> mo !in Protected(s.objects)
    modifies s`objects, s.objects[mo]
    ensures Owned(spaces) && AllValid(spaces) && fresh(s.objects.Values - old(s.objects.Values))
    ensures forall u | u in spaces && u != s :: PictureOf(u.objects) == old(PictureOf(u.objects))
    ensures Acts(op, mo, old(PictureOf(s.objects)), PictureOf(s.objects), e)
  {
    hide Owned, AllValid, Exclusive, Acts, WFOp, PictureOf;
    if op.WriteOp? {
      MakeWriteable(s, mo, spaces);
    }
    e := AccessPicture(s, mo, op, spaces);
  }

  /** The memory changes at one address, under every assignment alike. */
  ghost predicate Rebound(p: Picture, p': Picture, mo: nat, bytes: Option<seq<nat>>) {
    && p'.protected == p.protected - {mo} && (forall a: Assignment :: a in p.view && a in p'.view)
    && forall a: Assignment :: p'.view[a] == if bytes.Some? then p.view[a][mo := bytes.value] else p.view[a] - {mo}
  }

  /** Bind a new object of zeros. */
  method Allocate(s: AddressSpace, mo: nat, size: nat, ghost spaces: set<AddressSpace>)
    requires Owned(spaces) && AllValid(spaces) && s in spaces && size <= Pow2(INT32)
    modifies s`objects
    ensures Owned(spaces) && AllValid(spaces) && fresh(s.objects.Values - old(s.objects.Values))
    ensures forall u | u in spaces && u != s :: PictureOf(u.objects) == old(PictureOf(u.objects))
    ensures Rebound(old(PictureOf(s.objects)), PictureOf(s.objects), mo, Some(Zeros(size)))
  {
    hide Sound, Apart, ObjectState.Valid, ObjectState.Contents, ObjectState.Shape, Pow2, MemoryOf, ViewOf;
    assert ValidTable(s.objects);
    ViewAt(s.objects);
    var os := new ObjectState(size, true, "");
    s.BindObject(mo, os, spaces);
    assert ValidTable(s.objects);
    forall u | u in spaces && u != s ensures PictureOf(u.objects) == old(PictureOf(u.objects)) {
      assert old(ValidTable(u.objects)) && ValidTable(u.objects);
      u.KeepsView();
    }
    s.OneObject(mo);
    ViewAt(s.objects);
    assert Protected(s.objects) == old(Protected(s.objects)) - {mo};
  }

  method Free(s: AddressSpace, mo: nat, ghost spaces: set<AddressSpace>)
    requires Owned(spaces) && AllValid(spaces) && s in spaces
    modifies s`objects
    ensures Owned(spaces) && AllValid(spaces) && fresh(s.objects.Values - old(s.objects.Values))
    ensures forall u | u in spaces && u != s :: PictureOf(u.objects) == old(PictureOf(u.objects))
    ensures Rebound(old(PictureOf(s.objects)), PictureOf(s.objects), mo, None)
  {
    hide Sound, Apart, Owned, ObjectState.Valid, ObjectState.Contents, ObjectState.Shape, ViewOf;
    assert ValidTable(s.objects);
    ViewAt(s.objects);
    s.UnbindObject(mo, spaces);
    assert ValidTable(s.objects);
    ViewAt(s.objects);
    assert Protected(s.objects) == old(Protected(s.objects)) - {mo};
  }

  /** Make an object read-only in this space alone. */
  method Protect(s: AddressSpace, mo: nat, ghost spaces: set<AddressSpace>)
    requires Owned(spaces) && AllValid(spaces) && s in spaces && mo in s.objects && mo !in Protected(s.objects)
    modifies s`objects, s.objects[mo]
    ensures Owned(spaces) && AllValid(spaces) && fresh(s.objects.Values - old(s.objects.Values))
    ensures forall u | u in spaces && u != s :: PictureOf(u.objects) == old(PictureOf(u.objects))
    ensures PictureOf(s.objects) == old(PictureOf(s.objects)).(protected := old(PictureOf(s.objects)).protected + {mo})
  {
    hide Owned, AllValid, Exclusive, ViewOf;
    MakeWriteable(s, mo, spaces);
    ProtectHere(s, mo, spaces);
  }

  method ProtectHere(s: AddressSpace, mo: nat, ghost spaces: set<AddressSpace>)
    requires AllValid(spaces) && s in spaces && mo in s.objects && Exclusive(spaces, s, mo)
    modifies s.objects[mo]
    ensures AllValid(spaces) && (old(Owned(spaces)) ==> Owned(spaces))
    ensures forall u | u in spaces && u != s :: PictureOf(u.objects) == old(PictureOf(u.objects))
    ensures ViewOf(s.objects) == old(ViewOf(s.objects)) && Protected(s.objects) == old(Protected(s.objects)) + {mo}
  {
    hide Sound, Apart, ObjectState.Valid, ObjectState.Contents, ObjectState.Shape, ViewOf;
    assert ValidTable(s.objects);
    s.objects[mo].SetReadOnly(true);
    forall u | u in spaces ensures ViewOf(u.objects) == old(ViewOf(u.objects)) {
      assert old(ValidTable(u.objects)) && ValidTable(u.objects);
      u.KeepsView();
    }
    assert forall u | u in spaces && u != s :: Protected(u.objects) == old(Protected(u.objects));
  }

  /** Fork a space: both have the same picture. */
  method CopySpace(b: AddressSpace, ghost spaces: set<AddressSpace>) returns (s: AddressSpace)
    requires Owned(spaces) && AllValid(spaces) && b in spaces
    modifies b`cowKey
    ensures fresh(s) && Owned(spaces + {s}) && AllValid(spaces + {s}) && ObjectsOf(spaces + {s}) == ObjectsOf(spaces) == old(ObjectsOf(spaces))
    ensures PictureOf(s.objects) == old(PictureOf(b.objects)) && forall u | u in spaces :: PictureOf(u.objects) == old(PictureOf(u.objects))
  {
    hide Sound, Apart, Owned, ValidTable, PictureOf, ObjectState.Valid, ObjectState.Shape, ObjectState.Contents;
    s := new AddressSpace.Copy(b, spaces);
  }

  // ---------------------------------------------------------------- memories that share nothing

  /** An object of a memory of its own: its bytes, whether they are known, and whether it is read-only. */
  datatype Cell = Cell(bytes: seq<nat>, known: bool, readOnly: bool)

  type Cells = map<nat, Cell>

  /** The cells describe the picture under `a`: its objects, their sizes and protection, and the bytes that are
      known. */
  ghost predicate Depicts(m: Cells, p: Picture, a: Assignment) {
    && a in p.view && m.Keys == p.view[a].Keys
    && forall k | k in m :: |m[k].bytes| == |p.view[a][k]| && (m[k].readOnly <==> k in p.protected) && (m[k].known ==> m[k].bytes == p.view[a][k])
  }

  ghost predicate AllDepicted(ms: seq<Cells>, ps: seq<Picture>, a: Assignment) {
    |ms| == |ps| && forall i | 0 <= i < |ms| :: Depicts(ms[i], ps[i], a)
  }

  datatype Step =
    | ForkStep(i: nat)
    | AllocateStep(i: nat, mo: nat, size: nat)
    | FreeStep(i: nat, mo: nat)
    | ProtectStep(i: nat, mo: nat)
    | AccessStep(i: nat, mo: nat, op: Op)

  /** The operation is one for an object of this size, and does not write to a read-only one. */
  predicate Accepts(size: nat, readOnly: bool, op: Op) {
    size <= Pow2(INT32) && WFOp(op, size) && (op.WriteOp? ==> !readOnly)
  }

  /** An operation on a cell. Only a write that leaves the object loses its bytes. */
  function Accessed(c: Cell, op: Op, a: Assignment): Cell {
    if !op.WriteOp? || !Accepts(|c.bytes|, c.readOnly, op) then c
    else if Within(op, |c.bytes|, a) then c.(bytes := Apply(c.bytes, op, a))
    else c.(known := false)
  }

  /** A step of one memory. */
  function CellsAfter(m: Cells, step: Step, a: Assignment): Cells {
    match step
    case ForkStep(_) => m
    case AllocateStep(_, mo, size) => if size <= Pow2(INT32) then m[mo := Cell(Zeros(size), true, false)] else m
    case FreeStep(_, mo) => m - {mo}
    case ProtectStep(_, mo) => if mo in m then m[mo := m[mo].(readOnly := true)] else m
    case AccessStep(_, mo, op) => if mo in m then m[mo := Accessed(m[mo], op, a)] else m
  }

  /** A step on memories that share nothing: a fork copies, and every other step changes one memory. */
  function StepOn(ms: seq<Cells>, step: Step, a: Assignment): (r: seq<Cells>) {
    if step.i >= |ms| then ms
    else if step.ForkStep? then ms + [ms[step.i]]
    else ms[step.i := CellsAfter(ms[step.i], step, a)]
  }

  function RunOn(ms: seq<Cells>, steps: seq<Step>, a: Assignment): (r: seq<Cells>) {
    if steps == [] then ms else StepOn(RunOn(ms, steps[..|steps| - 1], a), steps[|steps| - 1], a)
  }

  /** If the step reads known bytes inside an object, `e` evaluates to them. */
  ghost predicate Answered(ms: seq<Cells>, step: Step, e: Expr, a: Assignment) {
    step.AccessStep? && step.i < |ms| && step.mo in ms[step.i] ==> CellAnswered(ms[step.i][step.mo], step.op, e, a)
  }

  ghost predicate CellAnswered(c: Cell, op: Op, e: Expr, a: Assignment) {
    op.ReadOp? && c.known && Accepts(|c.bytes|, c.readOnly, op) && Within(op, |c.bytes|, a) ==> WF(e) && Answers(e, c.bytes, op, a)
  }

  /** The picture went where the step takes a memory of its own, and `e` answers the step. */
  ghost predicate Refined(p: Picture, p': Picture, step: Step, e: Expr) {
    forall m, a: Assignment | Depicts(m, p, a) ::
      && Depicts(CellsAfter(m, step, a), p', a)
      && (step.AccessStep? && step.mo in m ==> CellAnswered(m[step.mo], step.op, e, a))
  }

  lemma AllocateRefined(p: Picture, p': Picture, step: Step, e: Expr)
    requires step.AllocateStep? && step.size <= Pow2(INT32) && Rebound(p, p', step.mo, Some(Zeros(step.size)))
    ensures Refined(p, p', step, e)
  {
    hide Pow2;
  }

  lemma FreeRefined(p: Picture, p': Picture, step: Step, e: Expr)
    requires step.FreeStep? && Rebound(p, p', step.mo, None)
    ensures Refined(p, p', step, e)
  {
  }

  lemma ProtectRefined(p: Picture, step: Step, e: Expr)
    requires step.ProtectStep? && forall a: Assignment | a in p.view :: step.mo in p.view[a]
    ensures Refined(p, p.(protected := p.protected + {step.mo}), step, e)
  {
  }

  lemma AccessRefined(p: Picture, p': Picture, step: Step, e: Expr)
    requires step.AccessStep? && Acts(step.op, step.mo, p, p', e) && (step.op.WriteOp? ==> step.mo !in p.protected)
    ensures Refined(p, p', step, e)
  {
    hide WFOp, Within, Apply, Answers, WF, Pow2;
  }

  /** A step that its object refuses, or that has none, changes nothing. */
  lemma NothingRefined(p: Picture, step: Step, e: Expr)
    requires !step.AllocateStep? || step.size > Pow2(INT32)
    requires step.FreeStep? || step.ProtectStep? || step.AccessStep? ==> forall a: Assignment | a in p.view && step.mo in p.view[a] ::
      step.AccessStep? && !Accepts(|p.view[a][step.mo]|, step.mo in p.protected, step.op)
    ensures Refined(p, p, step, e)
  {
    hide WFOp, Within, Apply, Answers, WF, Pow2;
    forall m, a: Assignment | Depicts(m, p, a) ensures CellsAfter(m, step, a) == m {
    }
  }

  /** The pictures of all spaces after a step. */
  ghost predicate Moved(ps: seq<Picture>, ps': seq<Picture>, step: Step, e: Expr) {
    if step.i >= |ps| then ps' == ps
    else if step.ForkStep? then ps' == ps + [ps[step.i]]
    else |ps'| == |ps| && ps' == ps[step.i := ps'[step.i]] && Refined(ps[step.i], ps'[step.i], step, e)
  }

  lemma MovedShows(ps: seq<Picture>, ps': seq<Picture>, step: Step, e: Expr, ms: seq<Cells>, a: Assignment)
    requires Moved(ps, ps', step, e) && AllDepicted(ms, ps, a)
    ensures AllDepicted(StepOn(ms, step, a), ps', a) && Answered(ms, step, e, a)
  {
    hide Depicts, CellsAfter, CellAnswered;
    if step.i < |ps| && !step.ForkStep? {
      assert Depicts(ms[step.i], ps[step.i], a);
    }
  }

  lemma RunOnNone(ms: seq<Cells>, steps: seq<Step>, a: Assignment)
    ensures RunOn(ms, steps[..0], a) == ms
  {
  }

  lemma RunOnNext(ms: seq<Cells>, steps: seq<Step>, n: nat, a: Assignment)
    requires n < |steps|
    ensures RunOn(ms, steps[..n + 1], a) == StepOn(RunOn(ms, steps[..n], a), steps[n], a)
  {
    assert steps[..n + 1][..n] == steps[..n];
  }

  /** What the picture of a table tells of the object at `mo`. */
  lemma BoundAt(m: Table, mo: nat)
    requires ValidTable(m)
    ensures forall a: Assignment :: a in PictureOf(m).view && (mo in PictureOf(m).view[a] <==> mo in m)
    ensures mo in m ==> forall a: Assignment :: |PictureOf(m).view[a][mo]| == m[mo].size
    ensures mo in PictureOf(m).protected <==> mo in m && m[mo].readOnly
  {
    hide ValidTable, ViewOf, ObjectState.Valid, ObjectState.Shape;
    ViewAt(m);
  }

  /** A step other than a fork, on one space; a step that its object refuses, or that has none, is none. */
  method StepSpace(s: AddressSpace, step: Step, ghost spaces: set<AddressSpace>) returns (e: Expr)
    requires Owned(spaces) && AllValid(spaces) && s in spaces && !step.ForkStep?
    modifies s`objects, s.objects.Values
    ensures Owned(spaces) && AllValid(spaces) && fresh(s.objects.Values - old(s.objects.Values))
    ensures forall u | u in spaces && u != s :: PictureOf(u.objects) == old(PictureOf(u.objects))
    ensures Refined(old(PictureOf(s.objects)), PictureOf(s.objects), step, e)
  {
    hide Owned, ValidTable, Refined, ObjectState.Valid, ObjectState.Shape, ObjectState.Contents, PictureOf, WFOp, Pow2, Acts, Rebound;
    e := Nothing();
    BoundAt(s.objects, if step.AllocateStep? then 0 else step.mo);
    ghost var p := PictureOf(s.objects);
    match step
    case AllocateStep(_, mo, size) =>
      if size <= Pow2(INT32) {
        Allocate(s, mo, size, spaces);
        AllocateRefined(p, PictureOf(s.objects), step, e);
      } else {
        NothingRefined(p, step, e);
      }
    case FreeStep(_, mo) =>
      Free(s, mo, spaces);
      FreeRefined(p, PictureOf(s.objects), step, e);
    case ProtectStep(_, mo) =>
      if mo in s.objects {
        ProtectRefined(p, step, e);
        if !s.objects[mo].readOnly {
          Protect(s, mo, spaces);
        } else {
          assert p.(protected := p.protected + {mo}) == p;
        }
      } else {
        NothingRefined(p, step, e);
      }
    case AccessStep(_, mo, op) =>
      if mo in s.objects && Accepts(s.objects[mo].size, s.objects[mo].readOnly, op) {
        e := Access(s, mo, op, spaces);
        AccessRefined(p, PictureOf(s.objects), step, e);
      } else {
        NothingRefined(p, step, e);
      }
  }

  class Forest {
    var spaces: seq<AddressSpace>

    ghost function Spaces(): set<AddressSpace>
      reads this
    {
      set s | s in spaces
    }

    ghost predicate Valid()
      reads this, Spaces(), ObjectsOf(Spaces())
    {
      && (forall i, j | 0 <= i < j < |spaces| :: spaces[i] != spaces[j])
      && Owned(Spaces()) && AllValid(Spaces())
    }

    ghost function Pictures(): (ps: seq<Picture>)
      reads this, Spaces(), ObjectsOf(Spaces())
      ensures |ps| == |spaces|
    {
      seq(|spaces|, i requires 0 <= i < |spaces| reads this, Spaces(), ObjectsOf(Spaces()) => PictureOf(spaces[i].objects))
    }

    /** `ms` describe the memories of all spaces under `a`. */
    ghost predicate Shows(ms: seq<Cells>, a: Assignment)
      reads this, Spaces(), ObjectsOf(Spaces())
    {
      AllDepicted(ms, Pictures(), a)
    }

    constructor ()
      ensures Valid() && forall a: Assignment :: Shows([map[]], a)
    {
      var s := new AddressSpace();
      spaces := [s];
      new;
      ViewAt(s.objects);
    }

    /** Add a space that is in order with the others. */
    method Append(s: AddressSpace)
      requires (forall i, j | 0 <= i < j < |spaces| :: spaces[i] != spaces[j]) && s !in Spaces()
      requires Owned(Spaces() + {s}) && AllValid(Spaces() + {s})
      modifies this
      ensures Valid() && spaces == old(spaces) + [s] && Spaces() == old(Spaces()) + {s}
      ensures Pictures() == old(Pictures()) + [old(PictureOf(s.objects))] && ObjectsOf(Spaces()) == old(ObjectsOf(Spaces() + {s}))
    {
      hide Sound, Apart, ValidTable, PictureOf;
      ghost var all := Spaces();
      spaces := spaces + [s];
      assert Spaces() == all + {s};
    }

    twostate lemma SamePictures()
      requires spaces == old(spaces) && forall u | u in Spaces() :: PictureOf(u.objects) == old(PictureOf(u.objects))
      ensures Pictures() == old(Pictures())
    {
      hide PictureOf;
      forall j | 0 <= j < |spaces| ensures PictureOf(spaces[j].objects) == old(PictureOf(spaces[j].objects)) {
        assert spaces[j] in Spaces();
      }
    }

    lemma PictureAt(i: nat)
      requires i < |spaces|
      ensures spaces[i] in Spaces() && Pictures()[i] == PictureOf(spaces[i].objects)
    {
    }

    method Fork(i: nat)
      requires Valid() && i < |spaces|
      modifies this, Spaces()
      ensures Valid() && fresh(Spaces() - old(Spaces())) && ObjectsOf(Spaces()) == old(ObjectsOf(Spaces()))
      ensures Pictures() == old(Pictures()) + [old(Pictures())[i]]
    {
      hide Owned, AllValid, ObjectsOf, PictureOf, Pictures;
      PictureAt(i);
      var s := CopySpace(spaces[i], Spaces());
      SamePictures();
      Append(s);
    }

    lemma ObjectsBound(i: nat)
      requires i < |spaces|
      ensures spaces[i] in Spaces() && spaces[i].objects.Values <= ObjectsOf(Spaces())
    {
    }

    /** One space changed. */
    twostate lemma OneChanged(i: nat)
      requires i < |spaces| && spaces == old(spaces) && (forall j, k | 0 <= j < k < |spaces| :: spaces[j] != spaces[k])
      requires forall u | u in Spaces() && u != spaces[i] :: u.objects == old(u.objects) && PictureOf(u.objects) == old(PictureOf(u.objects))
      ensures old(Pictures())[i] == old(PictureOf(spaces[i].objects)) && Pictures() == old(Pictures())[i := PictureOf(spaces[i].objects)]
      ensures ObjectsOf(Spaces()) <= old(ObjectsOf(Spaces())) + spaces[i].objects.Values
    {
      hide PictureOf;
      forall j | 0 <= j < |spaces| && j != i ensures PictureOf(spaces[j].objects) == old(PictureOf(spaces[j].objects)) {
        assert spaces[j] in Spaces();
      }
      assert spaces[i] in Spaces();
    }

    /** A step other than a fork, on space `i`. */
    method PerformOn(i: nat, step: Step) returns (e: Expr)
      requires Valid() && i < |spaces| && step.i == i && !step.ForkStep?
      modifies Spaces(), ObjectsOf(Spaces())
      ensures Valid() && fresh(ObjectsOf(Spaces()) - old(ObjectsOf(Spaces())))
      ensures Moved(old(Pictures()), Pictures(), step, e)
    {
      hide Owned, AllValid, PictureOf, Refined, Pictures;
      ObjectsBound(i);
      hide ObjectsOf;
      e := StepSpace(spaces[i], step, Spaces());
      OneChanged(i);
    }

    method Perform(step: Step) returns (e: Expr)
      requires Valid()
      modifies this, Spaces(), ObjectsOf(Spaces())
      ensures Valid() && fresh(Spaces() - old(Spaces())) && fresh(ObjectsOf(Spaces()) - old(ObjectsOf(Spaces())))
      ensures Moved(old(Pictures()), Pictures(), step, e)
    {
      hide Valid, Pictures, Refined;
      e := Nothing();
      if step.i < |spaces| {
        if step.ForkStep? {
          Fork(step.i);
        } else {
          e := PerformOn(step.i, step);
        }
      }
    }

    /** Over every run, sharing and flushing are invisible: under every assignment each space shows the memory that a
        copy of its own would hold, and every read of known bytes evaluates to them. A write of one space that
        leaves its object loses the bytes of that object, in that space, and nothing else. */
    method Run(steps: seq<Step>) returns (answers: seq<Expr>)
      requires Valid()
      modifies this, Spaces(), ObjectsOf(Spaces())
      ensures Valid() && |answers| == |steps|
      ensures forall ms, a: Assignment | old(Shows(ms, a)) :: Shows(RunOn(ms, steps, a), a)
      ensures forall ms, a: Assignment, n | old(Shows(ms, a)) && 0 <= n < |steps| :: Answered(RunOn(ms, steps[..n], a), steps[n], answers[n], a)
    {
      hide Valid, Pictures, AllDepicted, StepOn, RunOn, Moved, Answered;
      answers := [];
      forall ms, a: Assignment ensures RunOn(ms, steps[..0], a) == ms {
        RunOnNone(ms, steps, a);
      }
      for n := 0 to |steps|
        invariant Valid() && fresh(Spaces() - old(Spaces())) && fresh(ObjectsOf(Spaces()) - old(ObjectsOf(Spaces())))
        invariant |answers| == n
        invariant forall ms, a: Assignment | old(Shows(ms, a)) :: Shows(RunOn(ms, steps[..n], a), a)
        invariant forall ms, a: Assignment, k | old(Shows(ms, a)) && 0 <= k < n :: Answered(RunOn(ms, steps[..k], a), steps[k], answers[k], a)
      {
        ghost var ps := Pictures();
        var e := Perform(steps[n]);
        forall ms, a: Assignment | old(Shows(ms, a))
          ensures Shows(RunOn(ms, steps[..n + 1], a), a) && Answered(RunOn(ms, steps[..n], a), steps[n], e, a)
        {
          RunOnNext(ms, steps, n, a);
          MovedShows(ps, Pictures(), steps[n], e, RunOn(ms, steps[..n], a), a);
        }
        answers := answers + [e];
      }
      assert steps[..|steps|] == steps;
    }
  }
}
