/** Reading a constant table as nested selects over the ranges of its equal elements:
`ExprOptimizer::buildConstantSelectExpr`.
*/
module SelectTables {
  import opened BitVector
  import opened Expressions
  import opened SmartConstructors
  import opened ConstructorSoundness
  import opened Basics

  /** The elements from `first` up to `second`, all equal to `value`. */
  datatype Range = Range(first: nat, second: nat, value: nat)

  /** The ranges cut the first `n` elements, in order, into runs of equal elements as long as can be. */
  predicate IsRuns(values: seq<nat>, ranges: seq<Range>, n: nat) {
    && n <= |values| && (ranges == [] <==> n == 0)
    && (ranges != [] ==> ranges[0].first == 0 && ranges[|ranges| - 1].second == n)
    && (forall k | 0 <= k < |ranges| :: IsStretch(values, ranges[k]))
    && (forall k | 0 < k < |ranges| :: ranges[k - 1].second == ranges[k].first && ranges[k - 1].value != ranges[k].value)
  }

  predicate IsStretch(values: seq<nat>, r: Range) {
    r.first < r.second <= |values| && forall j | r.first <= j < r.second :: values[j] == r.value
  }

  /** Add the next run. */
  lemma AddRun(values: seq<nat>, ranges: seq<Range>, r: Range)
    requires IsRuns(values, ranges, r.first) && IsStretch(values, r)
    requires ranges != [] ==> ranges[|ranges| - 1].value != r.value
    ensures IsRuns(values, ranges + [r], r.second)
  {
  }

  function CountedIn(values: seq<nat>, n: nat): set<nat>
    requires n <= |values|
  {
    set v | v in values[..n]
  }

  /** The values that the loop counts as distinct: all but that of a last element which starts a run. */
  function Counted(values: seq<nat>): set<nat>
    requires |values| > 0
  {
    CountedIn(values, if |values| == 1 then 1 else |values| - 1)
  }

  /** What turn `i` of the loop adds. */
  lemma CountNext(values: seq<nat>, i: nat)
    requires i < |values|
    ensures CountedIn(values, 1) == {values[0]}
    ensures i > 1 ==> CountedIn(values, i) == CountedIn(values, i - 1) + {values[i - 1]}
  {
    assert values[..1] == [values[0]];
    if i > 1 {
      assert values[..i] == values[..i - 1] + [values[i - 1]];
    }
  }

  /** The loop that finds the ranges, and the values it counts as distinct. */
  method FindRanges(values: seq<nat>) returns (ranges: seq<Range>, unique: set<nat>)
    requires |values| > 0
    ensures IsRuns(values, ranges, |values|)
    ensures unique == Counted(values)
  {
    hide IsRuns;
    NoRuns(values);
    ranges, unique := [], {};
    var currIdx, currVal := 0, values[0];
    for i := 0 to |values|
      invariant currIdx <= i && (i < |values| ==> currIdx < |values| && currVal == values[currIdx])
      invariant i < |values| ==> IsRuns(values, ranges, currIdx) && (ranges != [] ==> ranges[|ranges| - 1].value != currVal)
      invariant i < |values| ==> forall j | currIdx <= j < i :: values[j] == currVal
      invariant i == |values| ==> IsRuns(values, ranges, |values|)
      invariant currVal == values[if i == 0 then 0 else i - 1]
      invariant unique == if i == 0 then {} else CountedIn(values, if i == 1 then 1 else i - 1)
    {
      var temp := values[i];
      CountNext(values, i);
      unique := unique + {currVal};
      if temp != currVal {
        AddRun(values, ranges, Range(currIdx, i, currVal));
        ranges := ranges + [Range(currIdx, i, currVal)];
        currVal, currIdx := temp, i;
        if i == |values| - 1 {
          AddRun(values, ranges, Range(currIdx, i + 1, currVal));
          ranges := ranges + [Range(currIdx, i + 1, currVal)];
        }
      } else if i == |values| - 1 {
        AddRun(values, ranges, Range(currIdx, i + 1, currVal));
        ranges := ranges + [Range(currIdx, i + 1, currVal)];
      }
    }
  }

  lemma NoRuns(values: seq<nat>)
    ensures IsRuns(values, [], 0)
  {
  }

  /** Every element lies in one of the ranges. */
  lemma {:induction false} FindRun(values: seq<nat>, ranges: seq<Range>, n: nat, i: nat) returns (k: nat)
    requires IsRuns(values, ranges, n) && i < n
    ensures k < |ranges| && ranges[k].first <= i < ranges[k].second
    decreases |ranges|
  {
    var last := |ranges| - 1;
    if ranges[last].first <= i {
      k := last;
    } else {
      assert IsRuns(values, ranges[..last], ranges[last].first);
      k := FindRun(values, ranges[..last], ranges[last].first, i);
    }
  }

  /** Ranges further on start later. */
  lemma {:induction false} RunsOrdered(values: seq<nat>, ranges: seq<Range>, n: nat, j: nat, k: nat)
    requires IsRuns(values, ranges, n) && j < k < |ranges|
    ensures ranges[j].second <= ranges[k].first
    decreases k
  {
    assert IsStretch(values, ranges[k - 1]);
    if j < k - 1 {
      RunsOrdered(values, ranges, n, j, k - 1);
    }
  }

  /** An element lies in only one of the ranges. */
  lemma OneRun(values: seq<nat>, ranges: seq<Range>, n: nat, j: nat, k: nat, i: nat)
    requires IsRuns(values, ranges, n) && j < |ranges| && k < |ranges|
    requires ranges[j].first <= i < ranges[j].second && ranges[k].first <= i < ranges[k].second
    ensures j == k
  {
    if j < k {
      RunsOrdered(values, ranges, n, j, k);
    } else if k < j {
      RunsOrdered(values, ranges, n, k, j);
    }
  }

  // ---------------------------------------------------------------- conditions

  /** The condition that the index lies in a range. */
  function RangeCondition(index: Expr, r: Range): (e: Expr)
    requires WF(index)
    ensures OfWidth(e, BOOL)
  {
    var w := Width(index);
    WrapBound(r.first, w);
    WrapBound(r.second, w);
    var first, second := Constant(Wrap(r.first, w), w), Constant(Wrap(r.second, w), w);
    if r.first + 1 == r.second then EqCreate(index, first)
    else AndCreate(CompareCreate(Sge, index, first), CompareCreate(Slt, index, second))
  }

  lemma WrapBound(x: nat, w: nat)
    ensures Wrap(x, w) < Pow2(w)
  {
  }

  /** When that condition holds of the index value `x`: the comparisons are signed and in `w` bits. */
  predicate Matches(r: Range, x: nat, w: nat)
    requires w > 0
  {
    if r.first + 1 == r.second then x == Wrap(r.first, w)
    else ToSigned(Wrap(r.first, w), w) <= ToSigned(x, w) < ToSigned(Wrap(r.second, w), w)
  }

  lemma RangeConditionSound(index: Expr, r: Range, a: Assignment)
    requires WF(index)
    ensures Holds(RangeCondition(index, r), a) <==> Matches(r, Eval(index, a), Width(index))
  {
    hide Eval, EqCreate, AndCreate, CompareCreate, Wrap, ToSigned, Pow2;
    var w := Width(index);
    WrapBound(r.first, w);
    WrapBound(r.second, w);
    var first, second := Constant(Wrap(r.first, w), w), Constant(Wrap(r.second, w), w);
    ConstantNode(first, a);
    ConstantNode(second, a);
    if r.first + 1 == r.second {
      EqSound(index, first, a);
    } else {
      CompareSound(Sge, index, first, a);
      CompareSound(Slt, index, second, a);
      CompareNode(Sge, index, first, a);
      CompareNode(Slt, index, second, a);
      Connectives(CompareCreate(Sge, index, first), CompareCreate(Slt, index, second), a);
    }
  }

  /** Some of the first `n` ranges of the group matches. */
  predicate AnyMatches(group: seq<Range>, n: nat, x: nat, w: nat)
    requires w > 0 && n <= |group|
  {
    exists k | 0 <= k < n :: Matches(group[k], x, w)
  }

  /** The disjunction of the conditions of a group. */
  method GroupCondition(index: Expr, group: seq<Range>) returns (e: Expr)
    requires WF(index) && group != []
    ensures OfWidth(e, BOOL)
    ensures forall a: Assignment :: Holds(e, a) <==> AnyMatches(group, |group|, Eval(index, a), Width(index))
  {
    hide Eval, RangeCondition, Matches, Holds, OrCreate;
    e := RangeCondition(index, group[0]);
    forall a: Assignment ensures Holds(e, a) <==> AnyMatches(group, 1, Eval(index, a), Width(index)) {
      RangeConditionSound(index, group[0], a);
    }
    for i := 1 to |group|
      invariant OfWidth(e, BOOL)
      invariant forall a: Assignment :: Holds(e, a) <==> AnyMatches(group, i, Eval(index, a), Width(index))
    {
      var next := RangeCondition(index, group[i]);
      var curr := e;
      e := OrCreate(next, curr);
      forall a: Assignment ensures Holds(e, a) <==> AnyMatches(group, i + 1, Eval(index, a), Width(index)) {
        RangeConditionSound(index, group[i], a);
        Connectives(next, curr, a);
      }
    }
  }

  // ---------------------------------------------------------------- groups and selects

  type Groups = map<nat, seq<Range>>

  /** The first `n` ranges, grouped by value. */
  predicate Grouped(groups: Groups, ranges: seq<Range>, n: nat)
    requires n <= |ranges|
  {
    && (forall v | v in groups :: groups[v] != [])
    && (forall v, k | v in groups && 0 <= k < |groups[v]| :: groups[v][k].value == v && groups[v][k] in ranges[..n])
    && (forall i | 0 <= i < n :: ranges[i].value in groups && ranges[i] in groups[ranges[i].value])
  }

  /** The range joins the group of its value. */
  function WithRange(groups: Groups, r: Range): Groups {
    groups[r.value := (if r.value in groups then groups[r.value] else []) + [r]]
  }

  lemma GroupStep(groups: Groups, ranges: seq<Range>, i: nat)
    requires i < |ranges| && Grouped(groups, ranges, i)
    ensures Grouped(WithRange(groups, ranges[i]), ranges, i + 1)
  {
    var groups' := WithRange(groups, ranges[i]);
    assert ranges[..i + 1] == ranges[..i] + [ranges[i]];
    forall j | 0 <= j < i + 1 ensures ranges[j].value in groups' && ranges[j] in groups'[ranges[j].value] {
      if j == i {
        assert groups'[ranges[i].value][|groups'[ranges[i].value]| - 1] == ranges[i];
      } else {
        var v := ranges[j].value;
        var k :| 0 <= k < |groups[v]| && groups[v][k] == ranges[j];
        assert groups'[v][k] == ranges[j];
      }
    }
    forall v, k | v in groups' && 0 <= k < |groups'[v]| ensures groups'[v][k].value == v && groups'[v][k] in ranges[..i + 1] {
      if v in groups && k < |groups[v]| {
        assert groups[v][k].value == v && groups[v][k] in ranges[..i];
      }
    }
  }

  method Group(ranges: seq<Range>) returns (groups: Groups)
    ensures Grouped(groups, ranges, |ranges|)
  {
    groups := map[];
    for i := 0 to |ranges|
      invariant Grouped(groups, ranges, i)
    {
      GroupStep(groups, ranges, i);
      groups := WithRange(groups, ranges[i]);
    }
  }

  /** A range of the group of `v` matches. */
  predicate Picks(groups: Groups, v: nat, x: nat, w: nat)
    requires w > 0
  {
    v in groups && AnyMatches(groups[v], |groups[v]|, x, w)
  }

  /** `e` is the one value in `done`, other than `smallest`, that is picked, and `smallest` if none is. */
  predicate Selects(groups: Groups, done: set<nat>, smallest: nat, x: nat, w: nat, e: nat)
    requires w > 0
  {
    && ((forall v | v in done && v != smallest :: !Picks(groups, v, x, w)) ==> e == smallest)
    && (forall v | v in done && v != smallest && Picks(groups, v, x, w) && (forall u | u in done && u != smallest && Picks(groups, u, x, w) :: u == v) :: e == v)
  }

  lemma SelectsMore(groups: Groups, done: set<nat>, smallest: nat, x: nat, w: nat, e: nat, v: nat)
    requires w > 0 && Selects(groups, done, smallest, x, w, e) && v !in done && v != smallest
    ensures Selects(groups, done + {v}, smallest, x, w, if Picks(groups, v, x, w) then v else e)
  {
    hide Picks;
  }

  lemma ConstantOf(v: nat, width: nat, a: Assignment)
    requires width > 0 && v < Pow2(width)
    ensures OfWidth(Constant(v, width), width) && Eval(Constant(v, width), a) == v
  {
    hide Pow2;
  }

  /** One more select. */
  method SelectValue(index: Expr, groups: Groups, width: nat, v: nat, result: Expr) returns (e: Expr)
    requires WF(index) && v in groups && groups[v] != [] && width > 0 && v < Pow2(width) && OfWidth(result, width)
    ensures OfWidth(e, width)
    ensures forall a: Assignment :: Eval(e, a) == if Picks(groups, v, Eval(index, a), Width(index)) then v else Eval(result, a)
  {
    hide Eval, SelectCreate, AnyMatches, Holds, Pow2;
    var condition := GroupCondition(index, groups[v]);
    var value := Constant(v, width);
    e := SelectCreate(condition, value, result);
    forall a: Assignment ensures Eval(e, a) == if Picks(groups, v, Eval(index, a), Width(index)) then v else Eval(result, a) {
      ConstantOf(v, width, a);
      SelectSound(condition, value, result, a);
    }
  }

  method SelectNext(index: Expr, groups: Groups, width: nat, v: nat, result: Expr, ghost done: set<nat>, ghost smallest: nat) returns (e: Expr)
    requires WF(index) && v in groups && groups[v] != [] && width > 0 && v < Pow2(width) && OfWidth(result, width)
    requires v !in done && v != smallest
    requires forall a: Assignment :: Selects(groups, done, smallest, Eval(index, a), Width(index), Eval(result, a))
    ensures OfWidth(e, width)
    ensures forall a: Assignment :: Selects(groups, done + {v}, smallest, Eval(index, a), Width(index), Eval(e, a))
  {
    hide Eval, WF, Picks, Selects, Pow2;
    e := SelectValue(index, groups, width, v, result);
    forall a: Assignment ensures Selects(groups, done + {v}, smallest, Eval(index, a), Width(index), Eval(e, a)) {
      SelectsMore(groups, done, smallest, Eval(index, a), Width(index), Eval(result, a), v);
    }
  }

  /** The selects, from the smallest value outwards to the greatest. */
  method BuildSelects(index: Expr, groups: Groups, width: nat) returns (result: Expr, smallest: nat)
    requires WF(index) && groups != map[] && width > 0 && forall v | v in groups :: groups[v] != [] && v < Pow2(width)
    ensures OfWidth(result, width) && smallest in groups && forall v | v in groups :: smallest <= v
    ensures forall a: Assignment :: Selects(groups, groups.Keys, smallest, Eval(index, a), Width(index), Eval(result, a))
  {
    hide Eval, Picks, Selects, Pow2;
    Least(groups.Keys);
    smallest :| IsLeast(groups.Keys, smallest);
    result := Constant(smallest, width);
    var pending := groups.Keys - {smallest};
    assert OfWidth(result, width) by { ConstantOf(smallest, width, map[]); }
    forall a: Assignment ensures Selects(groups, {smallest}, smallest, Eval(index, a), Width(index), Eval(result, a)) {
      ConstantOf(smallest, width, a);
      FirstSelected(groups, smallest, Eval(index, a), Width(index));
    }
    assert groups.Keys - pending == {smallest};
    while pending != {}
      invariant pending <= groups.Keys && smallest !in pending && OfWidth(result, width)
      invariant forall a: Assignment :: Selects(groups, groups.Keys - pending, smallest, Eval(index, a), Width(index), Eval(result, a))
    {
      Least(pending);
      var v :| IsLeast(pending, v);
      result := SelectNext(index, groups, width, v, result, groups.Keys - pending, smallest);
      NextPending(groups.Keys, pending, v);
      pending := pending - {v};
    }
    assert groups.Keys - pending == groups.Keys;
  }

  lemma FirstSelected(groups: Groups, smallest: nat, x: nat, w: nat)
    requires w > 0
    ensures Selects(groups, {smallest}, smallest, x, w, smallest)
  {
  }

  lemma NextPending(all: set<nat>, pending: set<nat>, v: nat)
    requires v in pending && pending <= all
    ensures all - pending + {v} == all - (pending - {v})
  {
  }

  predicate IsLeast(s: set<nat>, v: nat) {
    v in s && forall u | u in s :: v <= u
  }

  lemma {:induction false} Least(s: set<nat>)
    requires s != {}
    ensures exists v :: IsLeast(s, v)
    decreases |s|
  {
    var x :| x in s;
    var rest := s - {x};
    if rest == {} {
      assert s == {x};
      assert IsLeast(s, x);
    } else {
      Least(rest);
      var v :| IsLeast(rest, v);
      assert forall u | u in s :: u == x || u in rest;
      assert IsLeast(s, if v <= x then v else x);
    }
  }

  // ---------------------------------------------------------------- what the selects evaluate to

  /** The elements from `f` up to `s` are the run that holds element `i`. */
  predicate IsRun(values: seq<nat>, i: nat, f: nat, s: nat) {
    && f <= i < s <= |values| && (forall j | f <= j < s :: values[j] == values[i])
    && (f > 0 ==> values[f - 1] != values[i]) && (s < |values| ==> values[s] != values[i])
  }

  predicate Smallest(values: seq<nat>, v: nat) {
    forall j | 0 <= j < |values| :: v <= values[j]
  }

  /** The value is the default, or the end of its run is not negative as a signed index; the run of a single
      element has no end to compare with. */
  ghost predicate Representable(values: seq<nat>, i: nat, w: nat)
    requires i < |values| && w > 0
  {
    Smallest(values, values[i]) || exists f: nat, s: nat :: IsRun(values, i, f, s) && (s == f + 1 || s < Pow2(w - 1))
  }

  lemma RunOf(values: seq<nat>, ranges: seq<Range>, k: nat, i: nat)
    requires IsRuns(values, ranges, |values|) && k < |ranges| && ranges[k].first <= i < ranges[k].second
    ensures ranges[k].value == values[i] && IsRun(values, i, ranges[k].first, ranges[k].second)
  {
    assert IsStretch(values, ranges[k]);
    if k > 0 {
      assert IsStretch(values, ranges[k - 1]);
    }
    if k + 1 < |ranges| {
      assert IsStretch(values, ranges[k + 1]);
      assert ranges[(k + 1) - 1].second == ranges[k + 1].first;
    }
  }

  lemma RunUnique(values: seq<nat>, i: nat, f: nat, s: nat, f': nat, s': nat)
    requires IsRun(values, i, f, s) && IsRun(values, i, f', s')
    ensures f == f' && s == s'
  {
  }

  /** For an index that is not negative: a range matches when it holds the index and its end is not negative. */
  lemma MatchMeans(r: Range, i: nat, w: nat)
    requires w > 0 && r.first < r.second <= Pow2(w) && i < Pow2(w - 1)
    ensures Matches(r, i, w) <==> r.first <= i < r.second && (r.second == r.first + 1 || r.second < Pow2(w - 1))
  {
    hide Wrap;
    assert Pow2(w) == 2 * Pow2(w - 1);
    hide Pow2;
    WrapSmall(r.first, w);
    if r.second < Pow2(w) {
      WrapSmall(r.second, w);
    } else {
      FullTurn(w);
    }
  }

  lemma FullTurn(w: nat)
    ensures Wrap(Pow2(w), w) == 0
  {
    hide Pow2;
  }

  /** Which value is picked for a table element. */
  lemma PickMeans(values: seq<nat>, ranges: seq<Range>, groups: Groups, k: nat, i: nat, w: nat, v: nat)
    requires IsRuns(values, ranges, |values|) && Grouped(groups, ranges, |ranges|) && w > 0 && |values| <= Pow2(w)
    requires k < |ranges| && ranges[k].first <= i < ranges[k].second && i < Pow2(w - 1)
    ensures Picks(groups, v, i, w) <==> v == ranges[k].value && (ranges[k].second == ranges[k].first + 1 || ranges[k].second < Pow2(w - 1))
  {
    hide Pow2, Matches;
    assert ranges[..|ranges|] == ranges;
    assert IsStretch(values, ranges[k]);
    MatchMeans(ranges[k], i, w);
    if v in groups {
      forall m | 0 <= m < |groups[v]| && Matches(groups[v][m], i, w) ensures groups[v][m] == ranges[k] {
        var j :| 0 <= j < |ranges| && ranges[j] == groups[v][m];
        assert IsStretch(values, ranges[j]);
        MatchMeans(ranges[j], i, w);
        OneRun(values, ranges, |values|, j, k, i);
      }
    }
  }

  /** The values of the groups are the values of the table. */
  lemma GroupValues(values: seq<nat>, ranges: seq<Range>, groups: Groups)
    requires IsRuns(values, ranges, |values|) && Grouped(groups, ranges, |ranges|)
    ensures forall v :: v in groups <==> v in values
  {
    assert ranges[..|ranges|] == ranges;
    forall v | v in groups ensures v in values {
      var j :| 0 <= j < |ranges| && ranges[j] == groups[v][0];
      assert IsStretch(values, ranges[j]);
      assert values[ranges[j].first] == v;
    }
    forall v | v in values ensures v in groups {
      var i :| 0 <= i < |values| && values[i] == v;
      var k := FindRun(values, ranges, |values|, i);
      assert IsStretch(values, ranges[k]);
    }
  }

  /** For an index that is not negative, the selects give the table's element exactly when it is
      representable. */
  lemma SelectsElement(values: seq<nat>, ranges: seq<Range>, groups: Groups, smallest: nat, i: nat, w: nat, e: nat)
    requires IsRuns(values, ranges, |values|) && Grouped(groups, ranges, |ranges|) && w > 0 && |values| <= Pow2(w)
    requires i < |values| && i < Pow2(w - 1) && smallest in groups && (forall v | v in groups :: smallest <= v)
    requires Selects(groups, groups.Keys, smallest, i, w, e)
    ensures e == values[i] <==> Representable(values, i, w)
  {
    hide Picks, Pow2, Grouped;
    GroupValues(values, ranges, groups);
    var k := FindRun(values, ranges, |values|, i);
    RunOf(values, ranges, k, i);
    forall v ensures Picks(groups, v, i, w) <==> v == ranges[k].value && (ranges[k].second == ranges[k].first + 1 || ranges[k].second < Pow2(w - 1)) {
      PickMeans(values, ranges, groups, k, i, w, v);
    }
    assert values[i] in values && smallest <= values[i];
    var j :| 0 <= j < |values| && values[j] == smallest;
    assert values[i] == smallest ==> forall m | 0 <= m < |values| :: values[m] in values;
    if f: nat, s: nat :| IsRun(values, i, f, s) && (s == f + 1 || s < Pow2(w - 1)) {
      RunUnique(values, i, f, s, ranges[k].first, ranges[k].second);
    }
  }

  /** The index the selects compare: its low 32 bits. */
  function ActualIndex(index: Expr): (e: Expr)
    requires WF(index)
    ensures WF(e) && Width(e) <= INT32
  {
    if Width(index) > INT32 then Extract(index, 0, INT32) else index
  }

  /** The width of the index compared. */
  function IndexWidth(index: Expr): (w: nat)
    requires WF(index)
    ensures w > 0
  {
    if Width(index) < INT32 then Width(index) else INT32
  }

  lemma ActualIndexSound(index: Expr, a: Assignment)
    requires WF(index)
    ensures Width(ActualIndex(index)) == IndexWidth(index)
    ensures Eval(ActualIndex(index), a) == Wrap(Eval(index, a), INT32)
  {
    hide Eval, Pow2, Wrap;
    if Width(index) > INT32 {
      ExtractNode(index, 0, INT32, a);
      SliceFromZero(Eval(index, a), INT32);
    } else {
      Pow2Monotonic(Width(index), INT32);
      WrapSmall(Eval(index, a), INT32);
    }
  }

  /** An expression that reads the table, or none when too many of its values differ. */
  method BuildConstantSelectExpr(index: Expr, values: seq<nat>, width: nat, ratio: real) returns (result: Option<Expr>)
    requires WF(index) && values != [] && width > 0 && forall i | 0 <= i < |values| :: values[i] < Pow2(width)
    ensures result.None? <==> |Counted(values)| as real / |values| as real >= ratio
    ensures result.Some? ==> OfWidth(result.value, width)
    ensures result.Some? && |values| <= Pow2(IndexWidth(index)) ==>
      forall a: Assignment | Wrap(Eval(index, a), INT32) < |values| && Wrap(Eval(index, a), INT32) < Pow2(IndexWidth(index) - 1) ::
        Eval(result.value, a) == values[Wrap(Eval(index, a), INT32)] <==> Representable(values, Wrap(Eval(index, a), INT32), IndexWidth(index))
  {
    hide Eval, Pow2, Selects, Representable, ActualIndex, IndexWidth, IsRuns, Grouped, Wrap;
    var actual := ActualIndex(index);
    var ranges, unique := FindRanges(values);
    if |unique| as real / |values| as real >= ratio {
      return None;
    }
    var groups := Group(ranges);
    GroupValues(values, ranges, groups);
    GroupsFilled(groups, ranges);
    assert values[0] in groups;
    var e, smallest := BuildSelects(actual, groups, width);
    var w := IndexWidth(index);
    if |values| <= Pow2(w) {
      forall a: Assignment | Wrap(Eval(index, a), INT32) < |values| && Wrap(Eval(index, a), INT32) < Pow2(w - 1)
        ensures Eval(e, a) == values[Wrap(Eval(index, a), INT32)] <==> Representable(values, Wrap(Eval(index, a), INT32), w)
      {
        ActualIndexSound(index, a);
        SelectsElement(values, ranges, groups, smallest, Eval(actual, a), w, Eval(e, a));
      }
    }
    return Some(e);
  }

  lemma GroupsFilled(groups: Groups, ranges: seq<Range>)
    requires Grouped(groups, ranges, |ranges|)
    ensures forall v | v in groups :: groups[v] != []
  {
  }

  /** A table shorter than the non-negative indices is read right everywhere. */
  lemma AllRepresentable(values: seq<nat>, i: nat, w: nat)
    requires w > 0 && i < |values| < Pow2(w - 1)
    ensures Representable(values, i, w)
  {
    var f, s := Ends(values, i);
  }

  lemma Ends(values: seq<nat>, i: nat) returns (f: nat, s: nat)
    requires i < |values|
    ensures IsRun(values, i, f, s)
  {
    f, s := i, i + 1;
    while f > 0 && values[f - 1] == values[i]
      invariant f <= i && forall j | f <= j < s :: values[j] == values[i]
    {
      f := f - 1;
    }
    while s < |values| && values[s] == values[i]
      invariant i < s <= |values| && forall j | f <= j < s :: values[j] == values[i]
    {
      s := s + 1;
    }
  }

  /** A zero and then as many ones as there are non-negative indices of 32 bits. */
  function LongTable(): (values: seq<nat>)
    ensures |values| == 1 + Pow2(31) && values[0] == 0 && forall i | 0 < i < |values| :: values[i] == 1
  {
    [0] + seq(Pow2(31), _ => 1)
  }

  lemma LongTableMissed()
    ensures |LongTable()| <= Pow2(INT32) && !Representable(LongTable(), 1, INT32)
    ensures |Counted(LongTable())| as real / |LongTable()| as real < 1.0
  {
    hide LongTable;
    var values := LongTable();
    assert Pow2(INT32) == 2 * Pow2(31);
    Pow2Monotonic(1, 31);
    Pow2Byte();
    hide Pow2;
    assert IsRun(values, 1, 1, |values|);
    forall f: nat, s: nat | IsRun(values, 1, f, s) ensures f == 1 && s == |values| {
      RunUnique(values, 1, f, s, 1, |values|);
    }
    assert values[..|values| - 1][0] == 0 && values[..|values| - 1][1] == 1;
    assert Counted(values) == {0, 1};
  }

  /** A run that reaches the negative indices is missed: for a table of a zero and 2^31 ones an expression is built,
      and at index 1, whatever index expression it is the value of, it does not evaluate to 1. */
  method RunMissed(index: Expr) returns (result: Option<Expr>)
    requires OfWidth(index, INT32)
    ensures result.Some? && WF(result.value)
    ensures forall a: Assignment | Eval(index, a) == 1 :: Eval(result.value, a) != 1
  {
    hide Eval, WF, Pow2, Representable, Counted, LongTable, Wrap;
    LongTableMissed();
    Pow2Byte();
    var values := LongTable();
    assert Pow2(31) >= 2 by { Pow2Monotonic(1, 31); }
    result := BuildConstantSelectExpr(index, values, INT8, 1.0);
    forall a: Assignment ensures Wrap(Eval(index, a), INT32) == Eval(index, a) {
      WrapSmall(Eval(index, a), INT32);
    }
  }
}
