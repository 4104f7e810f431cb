/** Resolving an address to the memory objects it may lie in: `resolveOne` and `resolve` of an address
space. An address space is searched in the order of its objects' addresses.
*/
module Resolution {
  import opened BitVector
  import opened Expressions
  import opened SmartConstructors
  import opened ConstructorSoundness
  import opened Basics
  import opened Constraints
  import opened Solvers
  import opened PointerBounds

  /** The objects in the order of their addresses; they do not overlap and do not wrap. */
  predicate Ordered(objects: seq<MemoryObject>, w: nat) {
    && (forall i | 0 <= i < |objects| :: NoWrap(objects[i], w))
    && (forall i, j | 0 <= i < j < |objects| :: objects[i].address + Extent(objects[i]) <= objects[j].address)
  }

  /** The number of objects at or below the address `v`. */
  function UpperBound(objects: seq<MemoryObject>, v: nat, w: nat): (k: nat)
    requires Ordered(objects, w)
    ensures k <= |objects|
    ensures forall i | 0 <= i < |objects| :: objects[i].address <= v <==> i < k
  {
    var n := |objects| - 1;
    if objects == [] then 0
    else if objects[n].address <= v then n + 1
    else UpperBound(objects[..n], v, w)
  }

  /** `p` may lie in the object. */
  ghost predicate Possible(cs: seq<Expr>, p: Expr, mo: MemoryObject)
    requires Conditions(cs) && WF(p)
  {
    exists a: Assignment :: Sat(cs, a) && Inside(mo, Eval(p, a))
  }

  ghost predicate Certain(cs: seq<Expr>, p: Expr, mo: MemoryObject)
    requires Conditions(cs) && WF(p)
  {
    forall a: Assignment | Sat(cs, a) :: Inside(mo, Eval(p, a))
  }

  lemma CheckMeans(cs: seq<Expr>, p: Expr, mo: MemoryObject)
    requires Conditions(cs) && WF(p) && NoWrap(mo, Width(p))
    ensures May(cs, BoundsCheckPointer(mo, p)) <==> Possible(cs, p, mo)
    ensures Must(cs, BoundsCheckPointer(mo, p)) <==> Certain(cs, p, mo)
  {
    hide Eval, WF, Width, BoundsCheckPointer, Sat, Holds;
    forall a: Assignment ensures Holds(BoundsCheckPointer(mo, p), a) <==> Inside(mo, Eval(p, a)) {
      PointerCheckSound(mo, p, a);
    }
  }

  /** The comparisons of `p` with the base of an object. */
  lemma BaseMeans(cs: seq<Expr>, p: Expr, mo: MemoryObject)
    requires Conditions(cs) && WF(p) && NoWrap(mo, Width(p))
    ensures Must(cs, UleCreate(BaseExpr(mo, Width(p)), p)) <==> forall a: Assignment | Sat(cs, a) :: mo.address <= Eval(p, a)
    ensures Must(cs, UltCreate(p, BaseExpr(mo, Width(p)))) <==> forall a: Assignment | Sat(cs, a) :: Eval(p, a) < mo.address
  {
    hide Eval, WF, UleCreate, UltCreate, Sat, Holds, Pow2;
    var base := BaseExpr(mo, Width(p));
    forall a: Assignment
      ensures Holds(UleCreate(base, p), a) <==> mo.address <= Eval(p, a)
      ensures Holds(UltCreate(p, base), a) <==> Eval(p, a) < mo.address
    {
      UltHolds(base, p, a);
      UltHolds(p, base, a);
      ConstantNode(base, a);
    }
  }

  // ---------------------------------------------------------------- constant addresses

  /** The object at an address: there is at most one, and it is found if there is one. */
  method ResolveConstant(objects: seq<MemoryObject>, address: nat, w: nat) returns (r: Option<nat>)
    requires Ordered(objects, w)
    ensures r.Some? ==> r.value < |objects|
    ensures forall i | 0 <= i < |objects| :: Inside(objects[i], address) <==> r == Some(i)
  {
    hide NoWrap;
    var k := UpperBound(objects, address, w);
    if k > 0 {
      var mo := objects[k - 1];
      if (mo.size == 0 && address == mo.address) || address - mo.address < mo.size {
        return Some(k - 1);
      }
    }
    return None;
  }

  // ---------------------------------------------------------------- symbolic addresses

  /** Once `p` cannot lie below the base of object `i`, the objects before it are out of reach. */
  lemma NoneBelow(objects: seq<MemoryObject>, cs: seq<Expr>, p: Expr, i: nat)
    requires Conditions(cs) && WF(p) && Ordered(objects, Width(p)) && i < |objects|
    requires forall a: Assignment | Sat(cs, a) :: objects[i].address <= Eval(p, a)
    ensures forall j | 0 <= j < i :: !Possible(cs, p, objects[j])
  {
    hide Eval, WF, Width, Sat, NoWrap;
  }

  /** Once `p` must lie below the base of object `i`, it and the objects after it are out of reach. */
  lemma NoneAbove(objects: seq<MemoryObject>, cs: seq<Expr>, p: Expr, i: nat)
    requires Conditions(cs) && WF(p) && Ordered(objects, Width(p)) && i < |objects|
    requires forall a: Assignment | Sat(cs, a) :: Eval(p, a) < objects[i].address
    ensures forall j | i <= j < |objects| :: !Possible(cs, p, objects[j])
  {
    hide Eval, WF, Width, Sat, NoWrap;
    forall j, a: Assignment | i <= j < |objects| && Sat(cs, a) ensures !Inside(objects[j], Eval(p, a)) {
      assert objects[i].address <= objects[j].address;
    }
  }

  /** `p` lies in one object for certain, so it can lie in no other. */
  lemma OnlyOne(objects: seq<MemoryObject>, cs: seq<Expr>, p: Expr, i: nat)
    requires Conditions(cs) && WF(p) && Ordered(objects, Width(p)) && i < |objects|
    requires Certain(cs, p, objects[i])
    ensures forall j | 0 <= j < |objects| && j != i :: !Possible(cs, p, objects[j])
  {
    hide Eval, WF, Width, Sat, NoWrap;
    forall j, a: Assignment | 0 <= j < |objects| && j != i && Sat(cs, a) ensures !Inside(objects[j], Eval(p, a)) {
      assert Inside(objects[i], Eval(p, a));
    }
  }

  /** Some object that `p` may lie in, or none when there is none. */
  method ResolveOne(objects: seq<MemoryObject>, cs: seq<Expr>, solver: Solver, p: Expr) returns (r: Option<nat>)
    requires Conditions(cs) && Satisfiable(cs) && solver.Correct() && WF(p) && Ordered(objects, Width(p))
    ensures r.Some? ==> r.value < |objects| && Possible(cs, p, objects[r.value])
    ensures r.None? ==> forall i | 0 <= i < |objects| :: !Possible(cs, p, objects[i])
  {
    hide Eval, WF, Width, Sat, Holds, Solver.Correct, Satisfiable, Solver.MayBeTrue, Solver.MustBeTrue, Solver.GetValue,
      May, Must, UleCreate, UltCreate, BoundsCheckPointer, BaseExpr, Possible, Extent, NoWrap;
    if p.Constant? {
      r := ResolveConstant(objects, p.value, Width(p));
      ConstantPossible(objects, cs, p, r);
      return;
    }
    solver.GetValueCorrect(cs, p);
    var example := solver.GetValue(cs, p);
    var start := UpperBound(objects, example, Width(p));
    if start > 0 {
      var mo := objects[start - 1];
      if example - mo.address < mo.size {
        ExamplePossible(cs, p, mo, example);
        return Some(start - 1);
      }
    }
    var oi := start;
    while oi > 0
      invariant 0 <= oi <= start
      invariant forall j | oi <= j < start :: !Possible(cs, p, objects[j])
    {
      oi := oi - 1;
      var may := Query(cs, solver, p, objects[oi]);
      if may {
        return Some(oi);
      }
      var above := AtOrAbove(cs, solver, p, objects[oi]);
      if above {
        NoneBelow(objects, cs, p, oi);
        break;
      }
    }
    assert forall j | 0 <= j < start :: !Possible(cs, p, objects[j]);
    oi := start;
    while oi < |objects|
      invariant start <= oi <= |objects|
      invariant forall j | 0 <= j < oi :: !Possible(cs, p, objects[j])
    {
      var below := Below(cs, solver, p, objects[oi]);
      if below {
        NoneAbove(objects, cs, p, oi);
        break;
      }
      var may := Query(cs, solver, p, objects[oi]);
      if may {
        return Some(oi);
      }
      oi := oi + 1;
    }
    r := None;
  }

  /** Ask whether `p` may lie in the object. */
  method Query(cs: seq<Expr>, solver: Solver, p: Expr, mo: MemoryObject) returns (may: bool)
    requires Conditions(cs) && Satisfiable(cs) && solver.Correct() && WF(p) && NoWrap(mo, Width(p))
    ensures may <==> Possible(cs, p, mo)
  {
    hide Eval, WF, Width, Sat, Holds, Solver.Correct, Satisfiable, Solver.MayBeTrue, May, Must, BoundsCheckPointer, Possible;
    CheckMeans(cs, p, mo);
    solver.MayBeTrueCorrect(cs, BoundsCheckPointer(mo, p));
    may := solver.MayBeTrue(cs, BoundsCheckPointer(mo, p));
  }

  /** Ask whether `p` must lie in the object. */
  method QueryCertain(cs: seq<Expr>, solver: Solver, p: Expr, mo: MemoryObject) returns (must: bool)
    requires Conditions(cs) && Satisfiable(cs) && solver.Correct() && WF(p) && NoWrap(mo, Width(p))
    ensures must <==> Certain(cs, p, mo)
  {
    hide Eval, WF, Width, Sat, Holds, Solver.Correct, Satisfiable, Solver.MustBeTrue, May, Must, BoundsCheckPointer, Certain;
    CheckMeans(cs, p, mo);
    solver.MustBeTrueCorrect(cs, BoundsCheckPointer(mo, p));
    must := solver.MustBeTrue(cs, BoundsCheckPointer(mo, p));
  }

  /** Ask whether `p` must lie at or above the base. */
  method AtOrAbove(cs: seq<Expr>, solver: Solver, p: Expr, mo: MemoryObject) returns (must: bool)
    requires Conditions(cs) && Satisfiable(cs) && solver.Correct() && WF(p) && NoWrap(mo, Width(p))
    ensures must <==> forall a: Assignment | Sat(cs, a) :: mo.address <= Eval(p, a)
  {
    hide Eval, WF, Sat, Holds, Solver.Correct, Satisfiable, Solver.MustBeTrue, Must, UleCreate, Pow2;
    BaseMeans(cs, p, mo);
    solver.MustBeTrueCorrect(cs, UleCreate(BaseExpr(mo, Width(p)), p));
    must := solver.MustBeTrue(cs, UleCreate(BaseExpr(mo, Width(p)), p));
  }

  /** Ask whether `p` must lie below the base. */
  method Below(cs: seq<Expr>, solver: Solver, p: Expr, mo: MemoryObject) returns (must: bool)
    requires Conditions(cs) && Satisfiable(cs) && solver.Correct() && WF(p) && NoWrap(mo, Width(p))
    ensures must <==> forall a: Assignment | Sat(cs, a) :: Eval(p, a) < mo.address
  {
    hide Eval, WF, Sat, Holds, Solver.Correct, Satisfiable, Solver.MustBeTrue, Must, UltCreate, Pow2;
    BaseMeans(cs, p, mo);
    solver.MustBeTrueCorrect(cs, UltCreate(p, BaseExpr(mo, Width(p))));
    must := solver.MustBeTrue(cs, UltCreate(p, BaseExpr(mo, Width(p))));
  }

  /** Adding object `i` at either end of the range. */
  lemma Extended(rl: seq<nat>, objects: seq<MemoryObject>, cs: seq<Expr>, p: Expr, lo: nat, hi: nat, i: nat)
    requires Conditions(cs) && WF(p) && lo < hi <= |objects|
    requires (i == lo && Lists(rl, objects, cs, p, lo + 1, hi)) || (i == hi - 1 && Lists(rl, objects, cs, p, lo, hi - 1))
    ensures Lists(if Possible(cs, p, objects[i]) then rl + [i] else rl, objects, cs, p, lo, hi)
  {
    hide Possible, WF, Conditions;
  }

  lemma NoneListed(objects: seq<MemoryObject>, cs: seq<Expr>, p: Expr, k: nat)
    requires Conditions(cs) && WF(p) && k <= |objects|
    ensures Lists([], objects, cs, p, k, k)
  {
    hide Possible, WF, Conditions;
  }

  /** Objects out of reach may join the range. */
  lemma Widened(rl: seq<nat>, objects: seq<MemoryObject>, cs: seq<Expr>, p: Expr, lo: nat, hi: nat, lo': nat, hi': nat)
    requires Conditions(cs) && WF(p) && lo' <= lo <= hi <= hi' <= |objects| && Lists(rl, objects, cs, p, lo, hi)
    requires forall i | (lo' <= i < lo) || (hi <= i < hi') :: !Possible(cs, p, objects[i])
    ensures Lists(rl, objects, cs, p, lo', hi')
  {
    hide Possible, WF, Conditions;
  }

  datatype Verdict = Complete | Incomplete | Continue

  /** `rl` lists, each once, exactly the objects from `lo` to `hi` that `p` may lie in. */
  ghost predicate Lists(rl: seq<nat>, objects: seq<MemoryObject>, cs: seq<Expr>, p: Expr, lo: nat, hi: nat)
    requires Conditions(cs) && WF(p) && lo <= hi <= |objects|
  {
    && (forall i :: i in rl <==> lo <= i < hi && Possible(cs, p, objects[i]))
    && (forall i, j | 0 <= i < j < |rl| :: rl[i] != rl[j])
  }

  /** Add object `i` to the list if `p` may lie in it, and say whether the search is over. The cap is
      not looked at when the list has one element. */
  method CheckPointerInObject(objects: seq<MemoryObject>, cs: seq<Expr>, solver: Solver, p: Expr, i: nat, rl: seq<nat>, maxResolutions: nat)
      returns (verdict: Verdict, rl': seq<nat>)
    requires Conditions(cs) && Satisfiable(cs) && solver.Correct() && WF(p) && Ordered(objects, Width(p)) && i < |objects|
    ensures rl' == if Possible(cs, p, objects[i]) then rl + [i] else rl
    ensures verdict.Complete? ==> rl' == [i] && forall j | 0 <= j < |objects| && j != i :: !Possible(cs, p, objects[j])
    ensures verdict.Incomplete? <==> |rl'| == maxResolutions > 1 && rl' != rl
  {
    hide Eval, WF, Width, Sat, Solver.Correct, Satisfiable, Possible, Certain, NoWrap, Extent;
    rl' := rl;
    var may := Query(cs, solver, p, objects[i]);
    if may {
      rl' := rl + [i];
      if |rl'| == 1 {
        var must := QueryCertain(cs, solver, p, objects[i]);
        if must {
          OnlyOne(objects, cs, p, i);
          return Complete, rl';
        }
      } else if |rl'| == maxResolutions {
        return Incomplete, rl';
      }
    }
    verdict := Continue;
  }

  /** What a search may end with before all objects are looked at: `rl` has only objects that `p` may lie in,
      all of them if the search is complete. */
  ghost predicate Ended(incomplete: bool, rl: seq<nat>, objects: seq<MemoryObject>, cs: seq<Expr>, p: Expr, maxResolutions: nat, late: nat -> bool)
    requires Conditions(cs) && WF(p)
  {
    && (forall i | i in rl :: i < |objects| && Possible(cs, p, objects[i]))
    && (forall i, j | 0 <= i < j < |rl| :: rl[i] != rl[j])
    && (!incomplete ==> forall i | 0 <= i < |objects| :: i in rl <==> Possible(cs, p, objects[i]))
    && (incomplete ==> |rl| == maxResolutions > 1 || exists i :: late(i))
    && (maxResolutions > 1 ==> |rl| <= maxResolutions)
  }

  /** A list of the objects from `lo` to `hi` ends a search if nothing outside them is possible, or if the
      search is cut off. */
  lemma Ends(incomplete: bool, rl: seq<nat>, objects: seq<MemoryObject>, cs: seq<Expr>, p: Expr, maxResolutions: nat, late: nat -> bool, lo: nat, hi: nat)
    requires Conditions(cs) && WF(p) && lo <= hi <= |objects| && Lists(rl, objects, cs, p, lo, hi)
    requires !incomplete ==> forall i | 0 <= i < lo || hi <= i < |objects| :: !Possible(cs, p, objects[i])
    requires incomplete ==> |rl| == maxResolutions > 1 || exists i :: late(i)
    requires maxResolutions > 1 ==> |rl| <= maxResolutions
    ensures Ended(incomplete, rl, objects, cs, p, maxResolutions, late)
  {
    hide Possible, WF, Conditions;
  }

  /** Search the objects below `start`, the last first, until `p` cannot lie further down. */
  method SearchBackwards(objects: seq<MemoryObject>, cs: seq<Expr>, solver: Solver, p: Expr, start: nat, maxResolutions: nat, late: nat -> bool)
      returns (over: bool, incomplete: bool, rl: seq<nat>)
    requires Conditions(cs) && Satisfiable(cs) && solver.Correct() && WF(p) && Ordered(objects, Width(p)) && start <= |objects|
    ensures over ==> Ended(incomplete, rl, objects, cs, p, maxResolutions, late)
    ensures !over ==> Lists(rl, objects, cs, p, 0, start) && (maxResolutions > 1 ==> |rl| < maxResolutions)
  {
    hide Eval, WF, Width, Sat, Holds, Solver.Correct, Satisfiable, Possible, Extent, NoWrap, Lists, Ended;
    over, incomplete, rl := false, false, [];
    NoneListed(objects, cs, p, start);
    var oi := start;
    while oi > 0
      invariant 0 <= oi <= start && Lists(rl, objects, cs, p, oi, start) && (maxResolutions > 1 ==> |rl| < maxResolutions)
    {
      oi := oi - 1;
      if late(oi) {
        Ends(true, rl, objects, cs, p, maxResolutions, late, oi + 1, start);
        return true, true, rl;
      }
      var verdict;
      Extended(rl, objects, cs, p, oi, start, oi);
      verdict, rl := CheckPointerInObject(objects, cs, solver, p, oi, rl, maxResolutions);
      if verdict != Continue {
        Ends(verdict.Incomplete?, rl, objects, cs, p, maxResolutions, late, oi, start);
        return true, verdict.Incomplete?, rl;
      }
      var above := AtOrAbove(cs, solver, p, objects[oi]);
      if above {
        NoneBelow(objects, cs, p, oi);
        Widened(rl, objects, cs, p, oi, start, 0, start);
        break;
      }
    }
  }

  /** Search the objects from `start` on until `p` must lie below. */
  method SearchForwards(objects: seq<MemoryObject>, cs: seq<Expr>, solver: Solver, p: Expr, start: nat, found: seq<nat>, maxResolutions: nat, late: nat -> bool)
      returns (incomplete: bool, rl: seq<nat>)
    requires Conditions(cs) && Satisfiable(cs) && solver.Correct() && WF(p) && Ordered(objects, Width(p)) && start <= |objects|
    requires Lists(found, objects, cs, p, 0, start) && (maxResolutions > 1 ==> |found| < maxResolutions)
    ensures Ended(incomplete, rl, objects, cs, p, maxResolutions, late)
  {
    hide Eval, WF, Width, Sat, Holds, Solver.Correct, Satisfiable, Possible, Extent, NoWrap, Lists, Ended;
    rl := found;
    var oi := start;
    while oi < |objects|
      invariant start <= oi <= |objects| && Lists(rl, objects, cs, p, 0, oi) && (maxResolutions > 1 ==> |rl| < maxResolutions)
    {
      if late(oi) {
        Ends(true, rl, objects, cs, p, maxResolutions, late, 0, oi);
        return true, rl;
      }
      var below := Below(cs, solver, p, objects[oi]);
      if below {
        NoneAbove(objects, cs, p, oi);
        Widened(rl, objects, cs, p, 0, oi, 0, |objects|);
        break;
      }
      var verdict;
      Extended(rl, objects, cs, p, 0, oi + 1, oi);
      verdict, rl := CheckPointerInObject(objects, cs, solver, p, oi, rl, maxResolutions);
      if verdict != Continue {
        Ends(verdict.Incomplete?, rl, objects, cs, p, maxResolutions, late, 0, oi + 1);
        return verdict.Incomplete?, rl;
      }
      oi := oi + 1;
    }
    Ends(false, rl, objects, cs, p, maxResolutions, late, 0, |objects|);
    return false, rl;
  }

  /** The objects that `p` may lie in. `late(i)` says that time is up when object `i` is looked at. */
  method Resolve(objects: seq<MemoryObject>, cs: seq<Expr>, solver: Solver, p: Expr, maxResolutions: nat, late: nat -> bool)
      returns (incomplete: bool, rl: seq<nat>)
    requires Conditions(cs) && Satisfiable(cs) && solver.Correct() && WF(p) && Ordered(objects, Width(p))
    ensures forall i | i in rl :: i < |objects| && Possible(cs, p, objects[i])
    ensures forall i, j | 0 <= i < j < |rl| :: rl[i] != rl[j]
    ensures !incomplete ==> forall i | 0 <= i < |objects| :: i in rl <==> Possible(cs, p, objects[i])
    ensures incomplete ==> |rl| == maxResolutions > 1 || exists i :: late(i)
    ensures maxResolutions > 1 ==> |rl| <= maxResolutions
  {
    hide Eval, WF, Width, Sat, Holds, Solver.Correct, Satisfiable, Solver.GetValue, Possible, Extent, NoWrap, Lists;
    if p.Constant? {
      var r := ResolveConstant(objects, p.value, Width(p));
      ConstantPossible(objects, cs, p, r);
      return false, if r.Some? then [r.value] else [];
    }
    var example := solver.GetValue(cs, p);
    var start := UpperBound(objects, example, Width(p));
    var over;
    over, incomplete, rl := SearchBackwards(objects, cs, solver, p, start, maxResolutions, late);
    if !over {
      incomplete, rl := SearchForwards(objects, cs, solver, p, start, rl, maxResolutions, late);
    }
  }

  lemma ExamplePossible(cs: seq<Expr>, p: Expr, mo: MemoryObject, example: nat)
    requires Conditions(cs) && WF(p) && exists a: Assignment :: Sat(cs, a) && Eval(p, a) == example
    requires mo.address <= example < mo.address + mo.size
    ensures Possible(cs, p, mo)
  {
    hide Eval, WF, Width, Sat;
  }

  lemma ConstantPossible(objects: seq<MemoryObject>, cs: seq<Expr>, p: Expr, r: Option<nat>)
    requires Conditions(cs) && Satisfiable(cs) && WF(p) && p.Constant?
    requires forall i | 0 <= i < |objects| :: Inside(objects[i], p.value) <==> r == Some(i)
    ensures forall i | 0 <= i < |objects| :: Possible(cs, p, objects[i]) <==> r == Some(i)
  {
    hide Eval, WF, Width, Sat;
    forall a: Assignment ensures Eval(p, a) == p.value {
      ConstantNode(p, a);
    }
  }

  /** A byte of input used as an address of 64 bits. */
  const input := Array("x", 1, INT32, INT8, [])
  const inputByte := Read(UpdateList(input, NoUpdates), Constant(0, INT32))
  const inputPointer := ZExt(inputByte, 64)

  lemma InputByte(v: nat)
    requires v < 256
    ensures WF(inputByte) && Width(inputByte) == INT8 && Eval(inputByte, map[input := [v]]) == v
  {
    Pow2Byte();
    Pow2Monotonic(INT8, INT32);
  }

  lemma InputPointer()
    ensures WF(inputPointer) && Width(inputPointer) == 64 && Satisfiable([])
    ensures Possible([], inputPointer, MemoryObject(100, 1)) && Possible([], inputPointer, MemoryObject(200, 1))
  {
    hide Pow2;
    InputByte(100);
    InputByte(200);
    CastNode(inputByte, 64, map[input := [100]]);
    CastNode(inputByte, 64, map[input := [200]]);
    assert Sat([], map[input := [100]]) && Sat([], map[input := [200]]);
  }

  /** The cap does not hold when it is one: a pointer that may lie in two objects resolves to both. */
  method CapIgnored(solver: Solver) returns (rl: seq<nat>)
    requires solver.Correct()
    ensures 0 in rl && 1 in rl
  {
    hide Solver.Correct, WF, Width, Eval, Sat, Possible, Satisfiable, Pow2;
    InputPointer();
    Pow2Byte();
    Pow2Monotonic(8, 64);
    var objects := [MemoryObject(100, 1), MemoryObject(200, 1)];
    var incomplete;
    incomplete, rl := Resolve(objects, [], solver, inputPointer, 1, i => false);
    assert 0 < |objects| && objects[0] == MemoryObject(100, 1);
  }
}
