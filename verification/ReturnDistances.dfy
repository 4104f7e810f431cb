/** The shortest distance from each instruction to a return, through calls: the iteration at the start of
`StatsTracker::computeReachableUncovered`. Zero stands for "a return cannot be reached".
*/
module ReturnDistances {

  /** A call has the functions it may call as targets. */
  datatype Kind = Ret | Plain | Call(targets: seq<nat>)

  datatype Instruction = Instruction(kind: Kind, succs: seq<nat>, fn: nat)

  datatype Function = Declaration(mayReturn: bool) | Definition(entry: nat)

  datatype Program = Program(instructions: seq<Instruction>, functions: seq<Function>)

  predicate WF(p: Program) {
    && (forall i | 0 <= i < |p.instructions| :: WFInstruction(p, p.instructions[i]))
    && (forall f | 0 <= f < |p.functions| :: p.functions[f].Definition? ==>
          p.functions[f].entry < |p.instructions| && p.instructions[p.functions[f].entry].fn == f)
  }

  predicate WFInstruction(p: Program, i: Instruction) {
    && i.fn < |p.functions| && p.functions[i.fn].Definition?
    && (forall k | 0 <= k < |i.succs| :: i.succs[k] < |p.instructions|)
    && (i.kind.Ret? ==> i.succs == [])
    && (i.kind.Call? ==> forall k | 0 <= k < |i.kind.targets| :: i.kind.targets[k] < |p.functions|)
  }

  predicate IsEntry(p: Program, i: nat)
    requires WF(p) && i < |p.instructions|
  {
    p.functions[p.instructions[i].fn].entry == i
  }

  // ---------------------------------------------------------------- call-balanced paths

  /** A path to a return: each call on it goes through one of its targets and comes back. */
  datatype Path =
    | Return
    | Step(next: nat, rest: Path)
    | Through(target: nat, callee: FunctionPath, next: nat, rest: Path)

  datatype FunctionPath = External | Body(body: Path)

  predicate IsPath(p: Program, i: nat, path: Path)
    requires WF(p)
    decreases path
  {
    i < |p.instructions| &&
    match path
    case Return => p.instructions[i].kind.Ret?
    case Step(next, rest) => p.instructions[i].kind.Plain? && next in p.instructions[i].succs && IsPath(p, next, rest)
    case Through(target, callee, next, rest) =>
      && p.instructions[i].kind.Call? && target in p.instructions[i].kind.targets && IsFunctionPath(p, target, callee)
      && next in p.instructions[i].succs && IsPath(p, next, rest)
  }

  predicate IsFunctionPath(p: Program, f: nat, path: FunctionPath)
    requires WF(p)
    decreases path
  {
    f < |p.functions| &&
    match path
    case External => p.functions[f] == Declaration(true)
    case Body(body) => p.functions[f].Definition? && IsPath(p, p.functions[f].entry, body)
  }

  /** Every instruction counts one; a call counts one and the path through the function it calls. */
  function Cost(path: Path): (c: nat)
    ensures c > 0
  {
    match path
    case Return => 1
    case Step(_, rest) => 1 + Cost(rest)
    case Through(_, callee, _, rest) => 1 + FunctionCost(callee) + Cost(rest)
  }

  function FunctionCost(path: FunctionPath): (c: nat)
    ensures c > 0
  {
    match path
    case External => 1
    case Body(body) => Cost(body)
  }

  ghost predicate Reaches(p: Program, i: nat, c: nat)
    requires WF(p)
  {
    exists path :: IsPath(p, i, path) && Cost(path) == c
  }

  ghost predicate Crosses(p: Program, f: nat, c: nat)
    requires WF(p)
  {
    exists path :: IsFunctionPath(p, f, path) && FunctionCost(path) == c
  }

  // ---------------------------------------------------------------- the tables

  /** `dist[i]` is `minDistToReturn`, `short[f]` is `functionShortestPath`. */
  datatype Tables = Tables(dist: seq<nat>, short: seq<nat>)

  predicate Sized(p: Program, t: Tables) {
    |t.dist| == |p.instructions| && |t.short| == |p.functions|
  }

  /** Every entry that is not zero is the cost of a path. */
  ghost predicate Realised(p: Program, t: Tables)
    requires WF(p) && Sized(p, t)
  {
    && (forall i | 0 <= i < |t.dist| && t.dist[i] > 0 :: Reaches(p, i, t.dist[i]))
    && (forall f | 0 <= f < |t.short| && t.short[f] > 0 :: Crosses(p, f, t.short[f]))
  }

  /** A function's shortest path is that of its entry, or not yet set; a return and a declaration have theirs. */
  predicate Linked(p: Program, t: Tables)
    requires WF(p) && Sized(p, t)
  {
    && (forall f | 0 <= f < |t.short| :: FunctionLinked(p, t, f))
    && (forall i | 0 <= i < |t.dist| && p.instructions[i].kind.Ret? :: t.dist[i] == 1)
  }

  predicate FunctionLinked(p: Program, t: Tables, f: nat)
    requires WF(p) && Sized(p, t) && f < |t.short|
  {
    match p.functions[f]
    case Declaration(mayReturn) => t.short[f] == if mayReturn then 1 else 0
    case Definition(entry) => t.short[f] in {0, t.dist[entry]}
  }

  /** The distance through instruction `i` itself, zero if it cannot be passed. */
  predicate IsThrough(p: Program, t: Tables, i: nat, through: nat)
    requires WF(p) && Sized(p, t) && i < |p.instructions|
  {
    match p.instructions[i].kind
    case Call(targets) =>
      && (through > 0 ==> exists k | 0 <= k < |targets| :: t.short[targets[k]] > 0 && through == 1 + t.short[targets[k]])
      && (forall k | 0 <= k < |targets| && t.short[targets[k]] > 0 :: 0 < through <= 1 + t.short[targets[k]])
    case _ => through == 1
  }

  /** The best distance known at `i`, when it is passed at cost `through`. */
  predicate IsBest(p: Program, t: Tables, i: nat, through: nat, best: nat)
    requires WF(p) && Sized(p, t) && i < |p.instructions|
  {
    var succs := p.instructions[i].succs;
    && (best == t.dist[i] || exists k | 0 <= k < |succs| :: t.dist[succs[k]] > 0 && best == through + t.dist[succs[k]])
    && (t.dist[i] > 0 ==> 0 < best <= t.dist[i])
    && (forall k | 0 <= k < |succs| && t.dist[succs[k]] > 0 :: 0 < best <= through + t.dist[succs[k]])
  }

  /** Instruction `i` has nothing to improve. */
  ghost predicate Settled(p: Program, t: Tables, i: nat)
    requires WF(p) && Sized(p, t) && i < |p.instructions|
  {
    exists through :: IsThrough(p, t, i, through) &&
      (through > 0 ==> IsBest(p, t, i, through, t.dist[i]) && (IsEntry(p, i) ==> t.short[p.instructions[i].fn] == t.dist[i]))
  }

  method BestThrough(p: Program, t: Tables, i: nat) returns (through: nat)
    requires WF(p) && Sized(p, t) && i < |p.instructions|
    ensures IsThrough(p, t, i, through)
  {
    assert WFInstruction(p, p.instructions[i]);
    through := 0;
    if p.instructions[i].kind.Call? {
      var targets := p.instructions[i].kind.targets;
      for k := 0 to |targets|
        invariant through > 0 ==> exists j | 0 <= j < k :: t.short[targets[j]] > 0 && through == 1 + t.short[targets[j]]
        invariant forall j | 0 <= j < k && t.short[targets[j]] > 0 :: 0 < through <= 1 + t.short[targets[j]]
      {
        var dist := t.short[targets[k]];
        if dist > 0 {
          dist := 1 + dist;
          if through == 0 || dist < through {
            through := dist;
          }
        }
      }
    } else {
      through := 1;
    }
  }

  method Best(p: Program, t: Tables, i: nat, through: nat) returns (best: nat)
    requires WF(p) && Sized(p, t) && i < |p.instructions|
    ensures IsBest(p, t, i, through, best)
  {
    assert WFInstruction(p, p.instructions[i]);
    best := t.dist[i];
    var succs := p.instructions[i].succs;
    for k := 0 to |succs|
      invariant best == t.dist[i] || exists j | 0 <= j < k :: t.dist[succs[j]] > 0 && best == through + t.dist[succs[j]]
      invariant t.dist[i] > 0 ==> 0 < best <= t.dist[i]
      invariant forall j | 0 <= j < k && t.dist[succs[j]] > 0 :: 0 < best <= through + t.dist[succs[j]]
    {
      var dist := t.dist[succs[k]];
      if dist > 0 {
        var val := through + dist;
        if best == 0 || val < best {
          best := val;
        }
      }
    }
  }

  // ---------------------------------------------------------------- progress

  function Zeros(s: seq<nat>): nat {
    if s == [] then 0 else Zeros(s[..|s| - 1]) + if s[|s| - 1] == 0 then 1 else 0
  }

  function Sum(s: seq<nat>): nat {
    if s == [] then 0 else Sum(s[..|s| - 1]) + s[|s| - 1]
  }

  lemma {:induction false} UpdateCounts(s: seq<nat>, i: nat, v: nat)
    requires i < |s|
    ensures Zeros(s[i := v]) == Zeros(s) - (if s[i] == 0 then 1 else 0) + (if v == 0 then 1 else 0)
    ensures Sum(s[i := v]) == Sum(s) - s[i] + v
  {
    var n := |s| - 1;
    if i == n {
      assert s[i := v][..n] == s[..n];
    } else {
      assert s[i := v][..n] == s[..n][i := v];
      UpdateCounts(s[..n], i, v);
    }
  }

  function Missing(t: Tables): nat {
    Zeros(t.dist) + Zeros(t.short)
  }

  function Total(t: Tables): nat {
    Sum(t.dist) + Sum(t.short)
  }

  /** `t'` has fewer zeros than `t`, or as many and less in total. */
  predicate Better(t: Tables, t': Tables) {
    Missing(t') < Missing(t) || (Missing(t') == Missing(t) && Total(t') < Total(t))
  }

  /** The tables with another distance at `i`, and so at the function it is the entry of. */
  function Improved(p: Program, t: Tables, i: nat, best: nat): (t': Tables)
    requires WF(p) && Sized(p, t) && i < |p.instructions|
    ensures Sized(p, t')
  {
    assert WFInstruction(p, p.instructions[i]);
    Tables(t.dist[i := best], if IsEntry(p, i) then t.short[p.instructions[i].fn := best] else t.short)
  }

  lemma ImprovedBetter(p: Program, t: Tables, i: nat, through: nat, best: nat)
    requires WF(p) && Sized(p, t) && Linked(p, t) && i < |p.instructions| && IsBest(p, t, i, through, best)
    requires best != t.dist[i] || (IsEntry(p, i) && t.short[p.instructions[i].fn] != best)
    ensures Better(t, Improved(p, t, i, best))
  {
    assert WFInstruction(p, p.instructions[i]);
    UpdateCounts(t.dist, i, best);
    if IsEntry(p, i) {
      assert FunctionLinked(p, t, p.instructions[i].fn);
      UpdateCounts(t.short, p.instructions[i].fn, best);
    }
  }

  lemma ImprovedLinked(p: Program, t: Tables, i: nat, through: nat, best: nat)
    requires WF(p) && Sized(p, t) && Linked(p, t) && i < |p.instructions| && IsBest(p, t, i, through, best)
    ensures Linked(p, Improved(p, t, i, best))
  {
    var t' := Improved(p, t, i, best);
    assert WFInstruction(p, p.instructions[i]);
    forall f | 0 <= f < |t'.short| ensures FunctionLinked(p, t', f) {
      assert FunctionLinked(p, t, f);
    }
    assert p.instructions[i].kind.Ret? ==> best == 1;
  }

  /** What `IsBest` finds is the cost of a path. */
  lemma BestReaches(p: Program, t: Tables, i: nat, through: nat, best: nat)
    requires WF(p) && Sized(p, t) && Linked(p, t) && Realised(p, t) && i < |p.instructions|
    requires through > 0 && IsThrough(p, t, i, through) && IsBest(p, t, i, through, best) && best > 0
    ensures Reaches(p, i, best)
  {
    var instruction := p.instructions[i];
    assert WFInstruction(p, instruction);
    if best != t.dist[i] {
      var k :| 0 <= k < |instruction.succs| && t.dist[instruction.succs[k]] > 0 && best == through + t.dist[instruction.succs[k]];
      ReachesThrough(p, t, i, through, instruction.succs[k]);
    }
  }

  lemma ReachesThrough(p: Program, t: Tables, i: nat, through: nat, next: nat)
    requires WF(p) && Sized(p, t) && Realised(p, t) && i < |p.instructions| && next in p.instructions[i].succs
    requires next < |p.instructions| && t.dist[next] > 0 && through > 0 && IsThrough(p, t, i, through) && !p.instructions[i].kind.Ret?
    ensures Reaches(p, i, through + t.dist[next])
  {
    var instruction := p.instructions[i];
    var rest :| IsPath(p, next, rest) && Cost(rest) == t.dist[next];
    if instruction.kind.Call? {
      var targets := instruction.kind.targets;
      assert WFInstruction(p, instruction);
      var j :| 0 <= j < |targets| && t.short[targets[j]] > 0 && through == 1 + t.short[targets[j]];
      var callee :| IsFunctionPath(p, targets[j], callee) && FunctionCost(callee) == t.short[targets[j]];
      assert IsPath(p, i, Through(targets[j], callee, next, rest));
      assert Cost(Through(targets[j], callee, next, rest)) == through + t.dist[next];
    } else {
      assert IsPath(p, i, Step(next, rest));
      assert Cost(Step(next, rest)) == through + t.dist[next];
    }
  }

  lemma ImprovedRealised(p: Program, t: Tables, i: nat, best: nat)
    requires WF(p) && Sized(p, t) && Realised(p, t) && i < |p.instructions| && (best > 0 ==> Reaches(p, i, best))
    ensures Realised(p, Improved(p, t, i, best))
  {
    var t' := Improved(p, t, i, best);
    assert WFInstruction(p, p.instructions[i]);
    if best > 0 && IsEntry(p, i) {
      var path :| IsPath(p, i, path) && Cost(path) == best;
      assert IsFunctionPath(p, p.instructions[i].fn, Body(path)) && FunctionCost(Body(path)) == best;
    }
  }

  /** One instruction of a round. */
  method Relax(p: Program, t: Tables, i: nat) returns (t': Tables, changed: bool)
    requires WF(p) && Sized(p, t) && Linked(p, t) && Realised(p, t) && i < |p.instructions|
    ensures Sized(p, t') && Linked(p, t') && Realised(p, t')
    ensures changed ==> Better(t, t')
    ensures !changed ==> t' == t && Settled(p, t, i)
  {
    hide Linked, Realised, IsThrough, IsBest, Better, Improved;
    t', changed := t, false;
    var through := BestThrough(p, t, i);
    if through > 0 {
      var best := Best(p, t, i, through);
      assert WFInstruction(p, p.instructions[i]);
      if best != t.dist[i] || (IsEntry(p, i) && t.short[p.instructions[i].fn] != best) {
        ImprovedLinked(p, t, i, through, best);
        ImprovedBetter(p, t, i, through, best);
        if best > 0 {
          BestReaches(p, t, i, through, best);
        }
        ImprovedRealised(p, t, i, best);
        return Improved(p, t, i, best), true;
      }
    }
  }

  /** One round over all instructions, the last first. */
  method Round(p: Program, t: Tables) returns (t': Tables, changed: bool)
    requires WF(p) && Sized(p, t) && Linked(p, t) && Realised(p, t)
    ensures Sized(p, t') && Linked(p, t') && Realised(p, t')
    ensures changed ==> Better(t, t')
    ensures !changed ==> t' == t && forall i | 0 <= i < |p.instructions| :: Settled(p, t, i)
  {
    hide WF, Linked, Realised, Settled;
    t', changed := t, false;
    for i := |p.instructions| downto 0
      invariant Sized(p, t') && Linked(p, t') && Realised(p, t')
      invariant changed ==> Better(t, t')
      invariant !changed ==> t' == t && forall k | i <= k < |p.instructions| :: Settled(p, t, k)
    {
      var c;
      t', c := Relax(p, t', i);
      changed := changed || c;
    }
  }

  // ---------------------------------------------------------------- the result

  /** `d` is zero exactly when there is no path, and otherwise the least cost of one. */
  ghost predicate IsDistance(p: Program, i: nat, d: nat)
    requires WF(p)
  {
    if d == 0 then forall path :: !IsPath(p, i, path)
    else Reaches(p, i, d) && forall path | IsPath(p, i, path) :: d <= Cost(path)
  }

  ghost predicate IsFunctionDistance(p: Program, f: nat, d: nat)
    requires WF(p)
  {
    if d == 0 then forall path :: !IsFunctionPath(p, f, path)
    else Crosses(p, f, d) && forall path | IsFunctionPath(p, f, path) :: d <= FunctionCost(path)
  }

  /** In settled tables no path is cheaper than its entry says. */
  lemma {:induction false} SettledBound(p: Program, t: Tables, i: nat, path: Path)
    requires WF(p) && Sized(p, t) && Linked(p, t) && (forall k | 0 <= k < |p.instructions| :: Settled(p, t, k)) && IsPath(p, i, path)
    ensures 0 < t.dist[i] <= Cost(path)
    decreases path
  {
    assert Settled(p, t, i);
    var through :| IsThrough(p, t, i, through) &&
      (through > 0 ==> IsBest(p, t, i, through, t.dist[i]) && (IsEntry(p, i) ==> t.short[p.instructions[i].fn] == t.dist[i]));
    match path
    case Return =>
    case Step(next, rest) =>
      SettledBound(p, t, next, rest);
    case Through(target, callee, next, rest) =>
      SettledFunctionBound(p, t, target, callee);
      SettledBound(p, t, next, rest);
  }

  lemma {:induction false} SettledFunctionBound(p: Program, t: Tables, f: nat, path: FunctionPath)
    requires WF(p) && Sized(p, t) && Linked(p, t) && (forall k | 0 <= k < |p.instructions| :: Settled(p, t, k)) && IsFunctionPath(p, f, path)
    ensures 0 < t.short[f] <= FunctionCost(path)
    decreases path
  {
    assert FunctionLinked(p, t, f);
    if path.Body? {
      var entry := p.functions[f].entry;
      SettledBound(p, t, entry, path.body);
      assert Settled(p, t, entry);
      EntryPassed(p, t, entry, path.body);
    }
  }

  /** An entry from which a return is reached can be passed. */
  lemma EntryPassed(p: Program, t: Tables, i: nat, path: Path)
    requires WF(p) && Sized(p, t) && Linked(p, t) && (forall k | 0 <= k < |p.instructions| :: Settled(p, t, k)) && IsPath(p, i, path)
    requires IsEntry(p, i)
    ensures t.short[p.instructions[i].fn] == t.dist[i]
    decreases path, 0
  {
    assert Settled(p, t, i);
    if path.Through? {
      SettledFunctionBound(p, t, path.target, path.callee);
    }
  }

  /** The tables the iteration starts from. */
  lemma Initially(p: Program, t: Tables)
    requires WF(p) && Sized(p, t)
    requires forall i | 0 <= i < |t.dist| :: t.dist[i] == if p.instructions[i].kind.Ret? then 1 else 0
    requires forall f | 0 <= f < |t.short| :: t.short[f] == if p.functions[f] == Declaration(true) then 1 else 0
    ensures Linked(p, t) && Realised(p, t)
  {
    forall i | 0 <= i < |t.dist| && t.dist[i] > 0 ensures Reaches(p, i, t.dist[i]) {
      assert IsPath(p, i, Return) && Cost(Return) == 1;
    }
    forall f | 0 <= f < |t.short| && t.short[f] > 0 ensures Crosses(p, f, t.short[f]) {
      assert IsFunctionPath(p, f, External) && FunctionCost(External) == 1;
    }
  }

  /** Settled tables are exact. */
  lemma Exact(p: Program, t: Tables)
    requires WF(p) && Sized(p, t) && Linked(p, t) && Realised(p, t) && (forall i | 0 <= i < |p.instructions| :: Settled(p, t, i))
    ensures forall i | 0 <= i < |p.instructions| :: IsDistance(p, i, t.dist[i])
    ensures forall f | 0 <= f < |p.functions| :: IsFunctionDistance(p, f, t.short[f])
  {
    hide Settled, WF, Linked;
    forall i, path | 0 <= i < |p.instructions| && IsPath(p, i, path) ensures 0 < t.dist[i] <= Cost(path) {
      SettledBound(p, t, i, path);
    }
    forall f, path | 0 <= f < |p.functions| && IsFunctionPath(p, f, path) ensures 0 < t.short[f] <= FunctionCost(path) {
      SettledFunctionBound(p, t, f, path);
    }
  }

  /** The distances to a return, and the shortest paths through the functions. */
  method MinDistToReturn(p: Program) returns (t: Tables)
    requires WF(p)
    ensures Sized(p, t)
    ensures forall i | 0 <= i < |p.instructions| :: IsDistance(p, i, t.dist[i])
    ensures forall f | 0 <= f < |p.functions| :: IsFunctionDistance(p, f, t.short[f])
  {
    hide Settled, Missing, Total;
    t := Tables(
      seq(|p.instructions|, i requires 0 <= i < |p.instructions| => if p.instructions[i].kind.Ret? then 1 else 0),
      seq(|p.functions|, f requires 0 <= f < |p.functions| => if p.functions[f] == Declaration(true) then 1 else 0));
    Initially(p, t);
    hide Linked, Realised, WF;
    var changed := true;
    while changed
      invariant Sized(p, t) && Linked(p, t) && Realised(p, t)
      invariant !changed ==> forall i | 0 <= i < |p.instructions| :: Settled(p, t, i)
      decreases Missing(t), Total(t), changed
    {
      t, changed := Round(p, t);
    }
    Exact(p, t);
  }
}
