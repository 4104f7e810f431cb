/** The smart constructors of `Expr.cpp`: every `X::create` and its `createPartial` helpers.

Their contracts carry what termination needs: the result is well formed, has the width of the plain
node, and weighs no more than it. Meaning preservation is proved in `ConstructorSoundness`.
*/
module SmartConstructors {
  import opened BitVector
  import opened Expressions

  /** The operands a binary node takes. */
  predicate SameWidth(l: Expr, r: Expr) {
    WF(l) && WF(r) && Width(l) == Width(r)
  }

  function Zero(w: nat): Expr {
    Constant(0, w)
  }

  predicate IsAllOnes(c: Expr)
    requires c.Constant?
  {
    c.value == Pow2(c.width) - 1
  }

  // ---------------------------------------------------------------- constant folding

  /** `cl->op(cr)` on two constants. */
  function FoldBinary(op: BinOp, l: Expr, r: Expr): (e: Expr)
    requires l.Constant? && r.Constant? && SameWidth(l, r)
    ensures e.Constant? && OfWidth(e, Width(l))
  {
    Constant(EvalBinary(op, l.value, r.value, l.width), l.width)
  }

  function FoldCompare(op: CmpOp, l: Expr, r: Expr): (e: Expr)
    requires l.Constant? && r.Constant? && SameWidth(l, r)
    ensures e.Constant? && OfWidth(e, BOOL)
  {
    Constant(EvalCompare(op, l.value, r.value, l.width), BOOL)
  }

  function FoldConcat(l: Expr, r: Expr): (e: Expr)
    requires l.Constant? && r.Constant? && WF(l) && WF(r)
    ensures e.Constant? && OfWidth(e, Width(l) + Width(r))
  {
    Constant(Join(l.value, r.value, l.width, r.width), l.width + r.width)
  }

  /** An arithmetic shift followed by truncation, as `ConstantExpr::Extract` does it. */
  function FoldExtract(c: Expr, offset: nat, w: nat): (e: Expr)
    requires c.Constant? && WF(c) && w > 0
    ensures e.Constant? && OfWidth(e, w)
  {
    Constant(Wrap(High(ToSigned(c.value, c.width), offset), w), w)
  }

  /** Zero extension or truncation. */
  function FoldZExt(c: Expr, w: nat): (e: Expr)
    requires c.Constant? && WF(c) && w > 0
    ensures e.Constant? && OfWidth(e, w)
  {
    Constant(Wrap(c.value, w), w)
  }

  /** Sign extension or truncation. */
  function FoldSExt(c: Expr, w: nat): (e: Expr)
    requires c.Constant? && WF(c) && w > 0
    ensures e.Constant? && OfWidth(e, w)
  {
    Constant(Wrap(ToSigned(c.value, c.width), w), w)
  }

  function FoldNot(c: Expr): (e: Expr)
    requires c.Constant? && WF(c)
    ensures e.Constant? && OfWidth(e, Width(c))
  {
    Constant(Pow2(c.width) - 1 - c.value, c.width)
  }

  // ---------------------------------------------------------------- concatenation and extraction

  function ConcatCreate(l: Expr, r: Expr): (e: Expr)
    requires WF(l) && WF(r)
    ensures OfWidth(e, Width(l) + Width(r)) && Weight(e) <= 1 + Weight(l) + Weight(r)
    decreases Weight(l) + Weight(r)
  {
    if l.Constant? && r.Constant? then FoldConcat(l, r)
    else if l.Extract? && r.Extract? && l.expr == r.expr && r.offset + r.width == l.offset then
      ExtractCreate(l.expr, r.offset, l.width + r.width)
    else Concat(l, r)
  }

  function ExtractCreate(src: Expr, offset: nat, w: nat): (e: Expr)
    requires WF(src) && w > 0 && offset + w <= Width(src)
    ensures OfWidth(e, w) && Weight(e) <= 2 * Weight(src)
    decreases 2 * Weight(src)
  {
    if w == Width(src) then src
    else if src.Constant? then FoldExtract(src, offset, w)
    else if src.Concat? then
      var wr := Width(src.right);
      if offset >= wr then ExtractCreate(src.left, offset - wr, w)
      else if offset + w <= wr then ExtractCreate(src.right, offset, w)
      else ConcatCreate(ExtractCreate(src.left, 0, w - wr + offset), ExtractCreate(src.right, offset, wr - offset))
    else Extract(src, offset, w)
  }

  function ZExtCreate(src: Expr, w: nat): (e: Expr)
    requires WF(src) && w > 0
    ensures OfWidth(e, w) && Weight(e) <= 2 * Weight(src)
  {
    if w == Width(src) then src
    else if w < Width(src) then ExtractCreate(src, 0, w)
    else if src.Constant? then FoldZExt(src, w)
    else ZExt(src, w)
  }

  function SExtCreate(src: Expr, w: nat): (e: Expr)
    requires WF(src) && w > 0
    ensures OfWidth(e, w) && Weight(e) <= 2 * Weight(src)
  {
    if w == Width(src) then src
    else if w < Width(src) then ExtractCreate(src, 0, w)
    else if src.Constant? then FoldSExt(src, w)
    else SExt(src, w)
  }

  function NotCreate(src: Expr): (e: Expr)
    requires WF(src)
    ensures OfWidth(e, Width(src)) && Weight(e) <= 1 + Weight(src)
  {
    if src.Constant? then FoldNot(src) else Not(src)
  }

  // ---------------------------------------------------------------- conjunction and disjunction

  function AndPartial(l: Expr, cr: Expr): (e: Expr)
    requires cr.Constant? && SameWidth(l, cr)
    ensures OfWidth(e, Width(l)) && Weight(e) <= 2 + Weight(l)
  {
    if IsAllOnes(cr) then l else if cr.value == 0 then cr else Binary(And, l, cr)
  }

  function AndCreate(l: Expr, r: Expr): (e: Expr)
    requires SameWidth(l, r)
    ensures OfWidth(e, Width(l)) && Weight(e) <= 1 + Weight(l) + Weight(r)
  {
    if l.Constant? then
      if r.Constant? then FoldBinary(And, l, r) else AndPartial(r, l)
    else if r.Constant? then AndPartial(l, r)
    else Binary(And, l, r)
  }

  function OrPartial(l: Expr, cr: Expr): (e: Expr)
    requires cr.Constant? && SameWidth(l, cr)
    ensures OfWidth(e, Width(l)) && Weight(e) <= 4 + Weight(l)
  {
    if IsAllOnes(cr) then cr else if cr.value == 0 then l else Binary(Or, l, cr)
  }

  function OrCreate(l: Expr, r: Expr): (e: Expr)
    requires SameWidth(l, r)
    ensures OfWidth(e, Width(l)) && Weight(e) <= 3 + Weight(l) + Weight(r)
  {
    if l.Constant? then
      if r.Constant? then FoldBinary(Or, l, r) else OrPartial(r, l)
    else if r.Constant? then OrPartial(l, r)
    else Binary(Or, l, r)
  }

  // ---------------------------------------------------------------- equality

  /** `EqExpr_create`. */
  function EqAlloc(l: Expr, r: Expr): (e: Expr)
    requires SameWidth(l, r)
    ensures OfWidth(e, BOOL) && Weight(e) <= 1 + Weight(l) + Weight(r)
  {
    if l == r then True else Compare(Eq, l, r)
  }

  /** `EqExpr_createPartialR`. In the Add and Sub cases both operands handed to `SubExpr::create` are
      constants, so that call is its constant fold. */
  function EqPartialR(cl: Expr, r: Expr): (e: Expr)
    requires cl.Constant? && SameWidth(cl, r)
    ensures OfWidth(e, BOOL) && Weight(e) <= 2 + Weight(r)
    decreases 1 + Weight(r), 0
  {
    if cl.width == BOOL then
      if cl.value != 0 then r
      else if r.Compare? && r.cop.Eq? then
        if r.left.Constant? && r.left.width == BOOL && r.left.value == 0 then r.right else EqAlloc(cl, r)
      else if r.Binary? && r.bop.Or? then AndCreate(IsZero(r.left), IsZero(r.right))
      else EqAlloc(cl, r)
    else if r.SExt? then
      var trunc := FoldZExt(cl, Width(r.src));
      if cl == FoldSExt(trunc, cl.width) then EqCreate(r.src, trunc) else False
    else if r.ZExt? then
      var trunc := FoldZExt(cl, Width(r.src));
      if cl == FoldZExt(trunc, cl.width) then EqCreate(r.src, trunc) else False
    else if r.Binary? && r.bop.Add? && r.left.Constant? then
      EqPartialR(FoldBinary(Sub, cl, r.left), r.right)
    else if r.Binary? && r.bop.Sub? && r.left.Constant? then
      EqPartialR(FoldBinary(Sub, r.left, cl), r.right)
    else EqAlloc(cl, r)
  }

  function EqCreate(l: Expr, r: Expr): (e: Expr)
    requires SameWidth(l, r)
    ensures OfWidth(e, BOOL) && Weight(e) <= 1 + Weight(l) + Weight(r)
    decreases Weight(l) + Weight(r), 1
  {
    if l.Constant? then
      if r.Constant? then FoldCompare(Eq, l, r) else EqPartialR(l, r)
    else if r.Constant? then EqPartialR(r, l)
    else EqAlloc(l, r)
  }

  /** `Expr::createIsZero`. */
  function IsZero(src: Expr): (e: Expr)
    requires WF(src)
    ensures OfWidth(e, BOOL) && Weight(e) <= 2 + Weight(src)
    decreases Weight(src) + 1, 2
  {
    EqCreate(src, Zero(Width(src)))
  }

  // ---------------------------------------------------------------- exclusive or

  function XorPartialR(cl: Expr, r: Expr): (e: Expr)
    requires cl.Constant? && SameWidth(cl, r)
    ensures OfWidth(e, Width(r)) && Weight(e) <= 2 + Weight(r)
  {
    if cl.value == 0 then r
    else if cl.width == BOOL then EqPartialR(False, r)
    else Binary(Xor, cl, r)
  }

  function XorCreate(l: Expr, r: Expr): (e: Expr)
    requires SameWidth(l, r)
    ensures OfWidth(e, Width(l)) && Weight(e) <= 1 + Weight(l) + Weight(r)
  {
    if l.Constant? then
      if r.Constant? then FoldBinary(Xor, l, r) else XorPartialR(l, r)
    else if r.Constant? then XorPartialR(r, l)
    else Binary(Xor, l, r)
  }

  // ---------------------------------------------------------------- addition and subtraction

  /** The node `op k x` with a constant left operand that the rewriters look for. */
  predicate ConstantLeft(op: BinOp, e: Expr) {
    e.Binary? && e.bop == op && e.left.Constant?
  }

  /** Smaller when one operand is a constant: the tie-breaker of the measure. */
  function Symbolic(l: Expr, r: Expr): nat {
    if l.Constant? || r.Constant? then 2 else 4
  }

  function AddPartialR(cl: Expr, r: Expr): (e: Expr)
    requires cl.Constant? && SameWidth(cl, r)
    ensures OfWidth(e, Width(r)) && Weight(e) <= 2 + Weight(r)
    decreases 1 + Weight(r), 0
  {
    if cl.width == BOOL then XorPartialR(cl, r)
    else if cl.value == 0 then r
    else if ConstantLeft(Add, r) then AddCreate(AddCreate(cl, r.left), r.right)
    else if ConstantLeft(Sub, r) then SubCreate(AddCreate(cl, r.left), r.right)
    else Binary(Add, cl, r)
  }

  function AddCreate(l: Expr, r: Expr): (e: Expr)
    requires SameWidth(l, r)
    ensures OfWidth(e, Width(l)) && Weight(e) <= 1 + Weight(l) + Weight(r)
    ensures l.Constant? && r.Constant? ==> e == FoldBinary(Add, l, r)
    decreases Weight(l) + Weight(r), Symbolic(l, r)
  {
    if l.Constant? then
      if r.Constant? then FoldBinary(Add, l, r) else AddPartialR(l, r)
    else if r.Constant? then AddPartialR(r, l)
    else if Width(l) == BOOL then XorCreate(l, r)
    else if ConstantLeft(Add, l) then AddCreate(l.left, AddCreate(l.right, r))
    else if ConstantLeft(Sub, l) then AddCreate(l.left, SubCreate(r, l.right))
    else if ConstantLeft(Add, r) then AddCreate(r.left, AddCreate(l, r.right))
    else if ConstantLeft(Sub, r) then AddCreate(r.left, SubCreate(l, r.right))
    else Binary(Add, l, r)
  }

  function SubPartialR(cl: Expr, r: Expr): (e: Expr)
    requires cl.Constant? && SameWidth(cl, r)
    ensures OfWidth(e, Width(r)) && Weight(e) <= 2 + Weight(r)
    decreases 1 + Weight(r), 0
  {
    if cl.width == BOOL then XorPartialR(cl, r)
    else if ConstantLeft(Add, r) then SubCreate(SubCreate(cl, r.left), r.right)
    else if ConstantLeft(Sub, r) then AddCreate(SubCreate(cl, r.left), r.right)
    else Binary(Sub, cl, r)
  }

  function SubCreate(l: Expr, r: Expr): (e: Expr)
    requires SameWidth(l, r)
    ensures OfWidth(e, Width(l)) && Weight(e) <= 1 + Weight(l) + Weight(r)
    ensures l.Constant? && r.Constant? ==> e == FoldBinary(Sub, l, r)
    decreases Weight(l) + Weight(r), Symbolic(l, r)
  {
    if l.Constant? then
      if r.Constant? then FoldBinary(Sub, l, r) else SubPartialR(l, r)
    else if r.Constant? then AddPartialR(FoldBinary(Sub, Zero(r.width), r), l)
    else if Width(l) == BOOL then XorCreate(l, r)
    else if l == r then Zero(Width(l))
    else if ConstantLeft(Add, l) then AddCreate(l.left, SubCreate(l.right, r))
    else if ConstantLeft(Sub, l) then SubCreate(l.left, AddCreate(l.right, r))
    else if ConstantLeft(Add, r) then SubCreate(SubCreate(l, r.right), r.left)
    else if ConstantLeft(Sub, r) then SubCreate(AddCreate(l, r.right), r.left)
    else Binary(Sub, l, r)
  }

  // ---------------------------------------------------------------- multiplication

  function MulPartialR(cl: Expr, r: Expr): (e: Expr)
    requires cl.Constant? && SameWidth(cl, r)
    ensures OfWidth(e, Width(r)) && Weight(e) <= 2 + Weight(r)
  {
    if cl.width == BOOL then AndPartial(r, cl)
    else if cl.value == 1 then r
    else if cl.value == 0 then cl
    else Binary(Mul, cl, r)
  }

  function MulCreate(l: Expr, r: Expr): (e: Expr)
    requires SameWidth(l, r)
    ensures OfWidth(e, Width(l)) && Weight(e) <= 1 + Weight(l) + Weight(r)
  {
    if l.Constant? then
      if r.Constant? then FoldBinary(Mul, l, r) else MulPartialR(l, r)
    else if r.Constant? then MulPartialR(r, l)
    else if Width(l) == BOOL then Binary(And, l, r)
    else Binary(Mul, l, r)
  }

  // ---------------------------------------------------------------- the two families

  /** `BCREATE`: division, remainder and shifts, with their one-bit special cases. */
  function PlainCreate(op: BinOp, l: Expr, r: Expr): (e: Expr)
    requires SameWidth(l, r) && op in {UDiv, SDiv, URem, SRem, Shl, LShr, AShr}
    ensures OfWidth(e, Width(l)) && Weight(e) <= BinaryWeight(op) + Weight(l) + Weight(r)
  {
    if l.Constant? && r.Constant? then FoldBinary(op, l, r)
    else if Width(l) != BOOL then Binary(op, l, r)
    else if op in {URem, SRem} then False
    else if op in {Shl, LShr} then AndCreate(l, IsZero(r))
    else l
  }

  /** `XExpr::create(l, r)` for the arithmetic and bit-wise kinds. */
  function BinaryCreate(op: BinOp, l: Expr, r: Expr): (e: Expr)
    requires SameWidth(l, r)
    ensures OfWidth(e, Width(l)) && Weight(e) <= BinaryWeight(op) + Weight(l) + Weight(r)
  {
    match op
    case Add => AddCreate(l, r)
    case Sub => SubCreate(l, r)
    case Mul => MulCreate(l, r)
    case And => AndCreate(l, r)
    case Or => OrCreate(l, r)
    case Xor => XorCreate(l, r)
    case _ => PlainCreate(op, l, r)
  }

  function UltCreate(l: Expr, r: Expr): (e: Expr)
    requires SameWidth(l, r)
    ensures OfWidth(e, BOOL) && Weight(e) <= 3 + Weight(l) + Weight(r)
  {
    if l.Constant? && r.Constant? then FoldCompare(Ult, l, r)
    else if Width(l) == BOOL then AndCreate(IsZero(l), r)
    else Compare(Ult, l, r)
  }

  function UleCreate(l: Expr, r: Expr): (e: Expr)
    requires SameWidth(l, r)
    ensures OfWidth(e, BOOL) && Weight(e) <= 5 + Weight(l) + Weight(r)
  {
    if l.Constant? && r.Constant? then FoldCompare(Ule, l, r)
    else if Width(l) == BOOL then OrCreate(IsZero(l), r)
    else Compare(Ule, l, r)
  }

  function SltCreate(l: Expr, r: Expr): (e: Expr)
    requires SameWidth(l, r)
    ensures OfWidth(e, BOOL) && Weight(e) <= 3 + Weight(l) + Weight(r)
  {
    if l.Constant? && r.Constant? then FoldCompare(Slt, l, r)
    else if Width(l) == BOOL then AndCreate(l, IsZero(r))
    else Compare(Slt, l, r)
  }

  function SleCreate(l: Expr, r: Expr): (e: Expr)
    requires SameWidth(l, r)
    ensures OfWidth(e, BOOL) && Weight(e) <= 5 + Weight(l) + Weight(r)
  {
    if l.Constant? && r.Constant? then FoldCompare(Sle, l, r)
    else if Width(l) == BOOL then OrCreate(l, IsZero(r))
    else Compare(Sle, l, r)
  }

  /** `XExpr::create(l, r)` for the comparisons; the greater-than forms swap their operands. */
  function CompareCreate(op: CmpOp, l: Expr, r: Expr): (e: Expr)
    requires SameWidth(l, r)
    ensures OfWidth(e, BOOL) && Weight(e) <= CompareWeight(op) + Weight(l) + Weight(r)
  {
    match op
    case Eq => EqCreate(l, r)
    case Ne => EqCreate(False, EqCreate(l, r))
    case Ult => UltCreate(l, r)
    case Ule => UleCreate(l, r)
    case Ugt => UltCreate(r, l)
    case Uge => UleCreate(r, l)
    case Slt => SltCreate(l, r)
    case Sle => SleCreate(l, r)
    case Sgt => SltCreate(r, l)
    case Sge => SleCreate(r, l)
  }

  // ---------------------------------------------------------------- selection

  function SelectCreate(c: Expr, t: Expr, f: Expr): (e: Expr)
    requires OfWidth(c, BOOL) && SameWidth(t, f)
    ensures OfWidth(e, Width(t)) && Weight(e) <= 4 + Weight(c) + Weight(t) + Weight(f)
  {
    if c.Constant? then (if c.value != 0 then t else f)
    else if t == f then t
    else if Width(t) == BOOL && t.Constant? then
      (if t.value != 0 then OrCreate(c, f) else AndCreate(IsZero(c), f))
    else if Width(t) == BOOL && f.Constant? then
      (if f.value != 0 then OrCreate(IsZero(c), t) else AndCreate(c, t))
    else Select(c, t, f)
  }

  // ---------------------------------------------------------------- array reads

  /** Where the scan over the update list ends: at a value certainly written at the index, at a write
      that may or may not be at the index, or past the oldest write. */
  datatype Scan = Found(value: Expr) | Blocked(rest: Updates) | Exhausted

  function ScanUpdates(us: Updates, index: Expr, range: nat): (s: Scan)
    requires WF(index) && WFUpdates(us, Width(index), range)
    ensures s.Found? ==> OfWidth(s.value, range) && Weight(s.value) <= UpdatesWeight(us)
    ensures s.Blocked? ==> WFUpdates(s.rest, Width(index), range) && UpdatesWeight(s.rest) <= UpdatesWeight(us)
  {
    match us
    case NoUpdates => Exhausted
    case Update(i, v, next) =>
      var cond := EqCreate(index, i);
      if !cond.Constant? then Blocked(us)
      else if cond.value != 0 then Found(v)
      else ScanUpdates(next, index, range)
  }

  /** The read that remains once the scan is over. */
  function ReadAfterScan(ul: UpdateList, index: Expr, s: Scan): (e: Expr)
    requires WF(Read(ul, index))
    requires s.Found? ==> OfWidth(s.value, ul.root.range) && Weight(s.value) <= UpdatesWeight(ul.head)
    requires s.Blocked? ==> WFUpdates(s.rest, ul.root.domain, ul.root.range) && UpdatesWeight(s.rest) <= UpdatesWeight(ul.head)
    ensures OfWidth(e, ul.root.range) && Weight(e) <= Weight(Read(ul, index))
  {
    if s.Found? then s.value
    else if ul.root.constantValues != [] && s.Exhausted? && index.Constant? && index.value < ul.root.size then
      Constant(ul.root.constantValues[index.value], ul.root.range)
    else if index.Constant? && index.value < ul.root.size then
      var rest := if s.Blocked? then s.rest else NoUpdates;
      assert WFUpdates(rest, ul.root.domain, ul.root.range);
      Read(UpdateList(ul.root, rest), index)
    else Read(ul, index)
  }

  function ReadCreate(ul: UpdateList, index: Expr): (e: Expr)
    requires WF(Read(ul, index))
    ensures OfWidth(e, ul.root.range) && Weight(e) <= Weight(Read(ul, index))
  {
    ReadAfterScan(ul, index, ScanUpdates(ul.head, index, ul.root.range))
  }

  // ---------------------------------------------------------------- rebuilding a node

  function NumKids(e: Expr): nat {
    match e
    case Constant(_, _) => 0
    case Select(_, _, _) => 3
    case Concat(_, _) => 2
    case Binary(_, _, _) => 2
    case Compare(_, _, _) => 2
    case _ => 1
  }

  function Kid(e: Expr, i: nat): (k: Expr)
    requires i < NumKids(e)
    ensures Weight(k) < Weight(e)
    ensures WF(e) ==> WF(k)
  {
    match e
    case NotOptimized(src) => src
    case Read(_, index) => index
    case Select(c, t, f) => if i == 0 then c else if i == 1 then t else f
    case Concat(l, r) => if i == 0 then l else r
    case Extract(src, _, _) => src
    case ZExt(src, _) => src
    case SExt(src, _) => src
    case Not(src) => src
    case Binary(_, l, r) => if i == 0 then l else r
    case Compare(_, l, r) => if i == 0 then l else r
  }

  /** New kids that fit where the old ones were. */
  predicate Fits(e: Expr, kids: seq<Expr>) {
    |kids| == NumKids(e) && forall i | 0 <= i < |kids| :: OfWidth(kids[i], Width(Kid(e, i)))
  }

  /** The plain node of `e`'s kind over `kids`. */
  function WithKids(e: Expr, kids: seq<Expr>): (r: Expr)
    requires WF(e) && !e.Constant? && Fits(e, kids)
    ensures OfWidth(r, Width(e))
  {
    match e
    case NotOptimized(_) => NotOptimized(kids[0])
    case Read(ul, _) => Read(ul, kids[0])
    case Select(_, _, _) => Select(kids[0], kids[1], kids[2])
    case Concat(_, _) => Concat(kids[0], kids[1])
    case Extract(_, offset, width) => Extract(kids[0], offset, width)
    case ZExt(_, width) => ZExt(kids[0], width)
    case SExt(_, width) => SExt(kids[0], width)
    case Not(_) => Not(kids[0])
    case Binary(op, _, _) => Binary(op, kids[0], kids[1])
    case Compare(op, _, _) => Compare(op, kids[0], kids[1])
  }

  /** `Expr::rebuild`: the smart constructor of `e`'s kind over `kids`. */
  function Rebuild(e: Expr, kids: seq<Expr>): (r: Expr)
    requires WF(e) && !e.Constant? && Fits(e, kids)
    ensures OfWidth(r, Width(e)) && Weight(r) <= Weight(WithKids(e, kids))
  {
    match e
    case NotOptimized(_) => NotOptimized(kids[0])
    case Read(ul, _) => ReadCreate(ul, kids[0])
    case Select(_, _, _) => SelectCreate(kids[0], kids[1], kids[2])
    case Concat(_, _) => ConcatCreate(kids[0], kids[1])
    case Extract(_, offset, width) => ExtractCreate(kids[0], offset, width)
    case ZExt(_, width) => ZExtCreate(kids[0], width)
    case SExt(_, width) => SExtCreate(kids[0], width)
    case Not(_) => NotCreate(kids[0])
    case Binary(op, _, _) => BinaryCreate(op, kids[0], kids[1])
    case Compare(op, _, _) => CompareCreate(op, kids[0], kids[1])
  }
}
