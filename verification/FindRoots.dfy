/** parsers/rgd-parser.cpp, strip_zext and find_roots: the boolean skeleton of a branch condition. */
module FindRoots {
  import opened Base
  import L = Labels
  import opened Ast
  import opened Formula

  /** What find_roots reads: the label table and the caches filled by scan_labels. */
  datatype Config = Config(
    table: seq<L.LabelInfo>,
    nest: seq<nat>,                       // nested_cmp_cache
    size: seq<nat>,                       // ast_size_cache
    concretize: map<nat, (bool, bool)>,   // concretize_node, as (left, right)
    maxSize: nat)

  /** The labels below |nest| have been scanned. */
  ghost predicate Scanned(c: Config) {
    && L.Ordered(c.table) && 0 < |c.nest| == |c.size| <= |c.table|
    && c.table[0].op == L.Input && c.nest[0] == 0
  }

  /** What the counts look like when they have not wrapped around: label 0 is the constant; a zero extension has one
      operand; every comparison counts as nested in itself and an extension nests exactly what it extends. */
  ghost predicate Ok(c: Config) {
    && Scanned(c) && c.table[0].size == 8
    && forall l :: 0 < l < |c.nest| ==>
      && (c.table[l].op == L.ZExt ==> c.table[l].l2 == 0 && c.nest[l] == c.nest[c.table[l].l1])
      && (L.IsCompare(c.table[l].op) ==> c.nest[l] > 0)
  }

  // ---- strip_zext ----

  /** Follows zero extensions from `l`; `orig` is the answer when they do not end in a boolean. */
  function StripFrom(table: seq<L.LabelInfo>, orig: nat, l: nat): (r: nat)
    requires L.Ordered(table) && l < |table| && table[0].op == L.Input
    ensures r == orig || r < l
    decreases l
  {
    if table[l].op != L.ZExt then orig
    else
      var child := table[l].l1;
      if table[child].size == 1 || L.IsCompare(table[child].op) then child
      else StripFrom(table, orig, child)
  }

  function Strip(table: seq<L.LabelInfo>, l: nat): (r: nat)
    requires L.Ordered(table) && l < |table| && table[0].op == L.Input
    ensures r <= l
  {
    StripFrom(table, l, l)
  }

  method StripZext(table: seq<L.LabelInfo>, l: nat) returns (r: nat)
    requires L.Ordered(table) && l < |table| && table[0].op == L.Input
    ensures r == Strip(table, l)
  {
    var at: nat := l;
    while table[at].op == L.ZExt
      invariant at < |table| && StripFrom(table, l, at) == Strip(table, l)
      decreases at
    {
      var child := table[at].l1;
      at := child;
      if table[at].size == 1 { return child; }
      else if L.IsCompare(table[at].op) { return child; }
    }
    return l;
  }

  /** The label `n` operands below `l`. */
  function Under(table: seq<L.LabelInfo>, l: nat, n: nat): (r: nat)
    requires L.Ordered(table) && l < |table|
    ensures r < |table|
    decreases n
  {
    if n == 0 || l == 0 then l else Under(table, table[l].l1, n - 1)
  }

  lemma {:induction false} UnderNext(table: seq<L.LabelInfo>, l: nat, n: nat)
    requires L.Ordered(table) && 0 < l < |table|
    ensures Under(table, table[l].l1, n) == Under(table, l, n + 1)
  {
  }

  predicate IsBoolean(info: L.LabelInfo) {
    info.size == 1 || info.op.ICmp? || info.op == L.Fmemcmp
  }

  /** Under zero extensions only, the first boolean is what is left; without one, the label itself. */
  lemma {:induction false} StripIsFirst(table: seq<L.LabelInfo>, orig: nat, l: nat, n: nat)
    requires L.Ordered(table) && l < |table| && table[0].op == L.Input
    requires forall k :: 0 <= k < n ==> table[Under(table, l, k)].op == L.ZExt
    requires forall k :: 0 < k < n ==> !IsBoolean(table[Under(table, l, k)])
    ensures n > 0 && IsBoolean(table[Under(table, l, n)]) ==> StripFrom(table, orig, l) == Under(table, l, n)
    ensures table[Under(table, l, n)].op != L.ZExt && (n == 0 || !IsBoolean(table[Under(table, l, n)])) ==>
      StripFrom(table, orig, l) == orig
    decreases n
  {
    if n > 0 {
      assert table[Under(table, l, 0)].op == L.ZExt;
      var child := table[l].l1;
      UnderNext(table, l, n - 1);
      forall k | 0 <= k < n - 1 ensures table[Under(table, child, k)].op == L.ZExt { UnderNext(table, l, k); }
      forall k | 0 < k < n - 1 ensures !IsBoolean(table[Under(table, child, k)]) { UnderNext(table, l, k); }
      if n > 1 { UnderNext(table, l, 0); assert !IsBoolean(table[Under(table, l, 1)]); }
      StripIsFirst(table, orig, child, n - 1);
    }
  }

  lemma {:induction false} StripFromFacts(c: Config, orig: nat, l: nat)
    requires Ok(c) && l < |c.nest| && orig < |c.nest| && c.nest[orig] == c.nest[l] && (orig != 0 || l == 0)
    ensures StripFrom(c.table, orig, l) < |c.nest|
    ensures c.nest[StripFrom(c.table, orig, l)] == c.nest[l]
    ensures orig != 0 ==> StripFrom(c.table, orig, l) != 0
    decreases l
  {
    if c.table[l].op == L.ZExt {
      var child := c.table[l].l1;
      if !(c.table[child].size == 1 || L.IsCompare(c.table[child].op)) {
        StripFromFacts(c, orig, child);
      }
    }
  }

  /** Stripping keeps the number of nested comparisons and never turns a label into the constant. */
  lemma {:induction false} StripFacts(c: Config, l: nat)
    requires Ok(c) && l < |c.nest|
    ensures Strip(c.table, l) <= l && c.nest[Strip(c.table, l)] == c.nest[l]
    ensures Strip(c.table, l) == 0 <==> l == 0
  {
    StripFromFacts(c, l, l);
  }

  // ---- the nodes the traversal visits ----

  predicate HasLeft(c: Config, l: nat)
    requires Ok(c) && l < |c.nest|
  {
    l != 0 && c.nest[c.table[l].l1] > 0
  }

  predicate HasRight(c: Config, l: nat)
    requires Ok(c) && l < |c.nest|
  {
    l != 0 && c.nest[Strip(c.table, c.table[l].l2)] > 0
  }

  function LeftOf(c: Config, l: nat): (r: nat)
    requires Ok(c) && 0 < l < |c.nest|
    ensures r < l && (HasLeft(c, l) ==> 0 < r)
  {
    StripFacts(c, c.table[l].l1);
    Strip(c.table, c.table[l].l1)
  }

  function RightOf(c: Config, l: nat): (r: nat)
    requires Ok(c) && 0 < l < |c.nest|
    ensures r < l && (HasRight(c, l) ==> 0 < r)
  {
    StripFacts(c, c.table[l].l2);
    Strip(c.table, c.table[l].l2)
  }

  lemma {:induction false} ChildFacts(c: Config, l: nat)
    requires Ok(c) && 0 < l < |c.nest|
    ensures HasLeft(c, l) ==> 0 < LeftOf(c, l) < l
    ensures HasRight(c, l) ==> 0 < RightOf(c, l) < l
    ensures HasRight(c, l) <==> c.nest[c.table[l].l2] > 0
  {
    StripFacts(c, c.table[l].l1);
    StripFacts(c, c.table[l].l2);
  }

  /** The labels visited below and including `l`. */
  ghost function Below(c: Config, l: nat): set<nat>
    requires Ok(c) && l < |c.nest|
    decreases l
  {
    {l} + (if HasLeft(c, l) then Below(c, LeftOf(c, l)) else {})
        + (if HasRight(c, l) then Below(c, RightOf(c, l)) else {})
  }

  /** No label is met twice. */
  ghost predicate TreeShaped(c: Config, l: nat)
    requires Ok(c) && l < |c.nest|
    decreases l
  {
    && (HasLeft(c, l) ==> TreeShaped(c, LeftOf(c, l)))
    && (HasRight(c, l) ==> TreeShaped(c, RightOf(c, l)))
    && (HasLeft(c, l) && HasRight(c, l) ==> Below(c, LeftOf(c, l)) !! Below(c, RightOf(c, l)))
  }

  // ---- what one node becomes, given what its children became ----

  function KindOf(p: L.Predicate): Kind {
    match p
    case Bveq => Equal
    case Bvneq => Distinct
    case Bvugt => Ugt
    case Bvuge => Uge
    case Bvult => Ult
    case Bvule => Ule
    case Bvsgt => Sgt
    case Bvsge => Sge
    case Bvslt => Slt
    case Bvsle => Sle
  }

  predicate EvalIcmp(p: L.Predicate, op1: nat, op2: nat) {
    Compare(KindOf(p), op1, op2, 64)
  }

  /** A node with the given data over the children that exist. */
  function Build(d: Data, left: Option<Tree>, right: Option<Tree>): Tree {
    match (left, right)
    case (None, None) => T0(d)
    case (Some(t), None) => T1(d, t)
    case (None, Some(t)) => T1(d, t)
    case (Some(t), Some(u)) => T2(d, t, u)
  }

  const ONE_BIT := EMPTY.data.(bits := 1)

  function Constantly(value: bool): Tree {
    T0(SetBoolvalue(ONE_BIT.(kind := Bool), value))
  }

  /** The new size and the operands to concretize of a comparison that is a leaf. */
  function Concretized(c: Config, l: nat): (nat, (bool, bool))
    requires Scanned(c) && 0 < l < |c.nest|
  {
    var info := c.table[l];
    var was := if l in c.concretize then c.concretize[l] else (false, false);
    if c.size[l] <= c.maxSize then (c.size[l], was)
    else
      var left := c.size[info.l1] > c.maxSize;
      var right := c.size[info.l2] > c.maxSize;
      var s1 := if left then (c.size[l] - (c.size[info.l1] - 1)) % WRAP32 else c.size[l];
      var s2 := if right then (s1 - (c.size[info.l2] - 1)) % WRAP32 else s1;
      (s2, (was.0 || left, was.1 || right))
  }

  /** Both operands of a leaf comparison are concrete. */
  predicate Folds(c: Config, l: nat)
    requires Scanned(c) && 0 < l < |c.nest|
  {
    var (_, (left, right)) := Concretized(c, l);
    (left || c.table[l].l1 == 0) && (right || c.table[l].l2 == 0)
  }

  /** What happens to a node once its children are finished: give up, become a constant, become a copy of a
      child, or keep its children under new data. */
  datatype Action = Fail | Fold(value: bool) | CopyLeft | CopyRight | Keep(data: Data)

  const NEGATE := Keep(ONE_BIT.(kind := LNot))

  function DecideNot(info: L.LabelInfo, left: Option<Data>, right: Option<Data>): Action {
    if left.Some? == right.Some? || info.size != 1 then Fail
    else
      var child := if left.Some? then left.value else right.value;
      if child.kind == Bool then Fold(!child.boolvalue) else NEGATE
  }

  /** LAnd and LOr.  `unit` is the operand that decides nothing: 1 for LAnd, 0 for LOr. */
  function DecideJunction(info: L.LabelInfo, kind: Kind, unit: bool, left: Option<Data>, right: Option<Data>): Action {
    if (left.None? && right.None?) || info.size != 1 then Fail
    else if info.l1 == 0 then
      if info.op1 == (if unit then 0 else 1) then Fold(!unit)
      else if info.op1 == (if unit then 1 else 0) then (if right.Some? then CopyRight else Fail)
      else Fail
    else if left.None? || right.None? then Fail
    else if left.value.kind == Bool then
      if left.value.boolvalue != unit then Fold(!unit)
      else if right.value.kind == Bool then Fold(right.value.boolvalue)
      else CopyRight
    else if right.value.kind == Bool then
      if right.value.boolvalue != unit then Fold(!unit) else CopyLeft
    else
      Keep(ONE_BIT.(kind := kind))
  }

  function DecideXor(info: L.LabelInfo, left: Option<Data>, right: Option<Data>): Action {
    if (left.None? && right.None?) || info.size != 1 then Fail
    else if info.l1 == 0 then
      if right.None? then Fail
      else if right.value.kind == Bool then Fold(B(right.value.boolvalue) != info.op1 % WRAP8)
      else if info.op1 == 1 then NEGATE
      else CopyRight
    else if left.None? || right.None? then Fail
    else if left.value.kind == Bool then
      if right.value.kind == Bool then Fold(right.value.boolvalue != left.value.boolvalue)
      else if !left.value.boolvalue then CopyRight
      else NEGATE
    else if right.value.kind == Bool then
      if !right.value.boolvalue then CopyLeft else NEGATE
    else
      Keep(ONE_BIT.(kind := Xor))
  }

  /** A comparison of the boolean `child` with the constant `k`; `other` is the label of the constant's side. */
  function DecideBoolCompare(pred: L.Predicate, other: nat, k: nat, child: Data, copy: Action): Action {
    if child.bits != 1 then Fail
    else if other != 0 then Fold(false)
    else if k == (if pred == L.Bveq then 1 else 0) then copy
    else NEGATE
  }

  function DecideCmp(c: Config, l: nat, left: Option<Data>, right: Option<Data>): Action
    requires Scanned(c) && 0 < l < |c.nest| && c.table[l].op.ICmp?
  {
    var info := c.table[l];
    if left.None? && right.None? then
      if Folds(c, l) then Fold(EvalIcmp(info.op.pred, info.op1, info.op2))
      else Keep(ONE_BIT.(kind := KindOf(info.op.pred), node := l))
    else if left.Some? && right.Some? then
      Fold(EvalIcmp(info.op.pred, info.op1, info.op2))
    else if info.op.pred != L.Bveq && info.op.pred != L.Bvneq then
      Keep(SetBoolvalue(ONE_BIT.(kind := Bool), EvalIcmp(info.op.pred, info.op1, info.op2)))
    else if left.Some? then DecideBoolCompare(info.op.pred, info.l2, info.op2, left.value, CopyLeft)
    else DecideBoolCompare(info.op.pred, info.l1, info.op1, right.value, CopyRight)
  }

  /** The post-order step of find_roots, as a decision. */
  function Decide(c: Config, l: nat, left: Option<Data>, right: Option<Data>): (act: Action)
    requires Scanned(c) && 0 < l < |c.nest|
    ensures act == CopyLeft ==> left.Some?
    ensures act == CopyRight ==> right.Some?
  {
    var info := c.table[l];
    match info.op
    case Not => DecideNot(info, left, right)
    case And => DecideJunction(info, LAnd, true, left, right)
    case Or => DecideJunction(info, LOr, false, left, right)
    case Xor => DecideXor(info, left, right)
    case ICmp(_) => DecideCmp(c, l, left, right)
    case Fmemcmp => if left.Some? || right.Some? then Fail else Keep(ONE_BIT.(kind := Memcmp, node := l))
    case _ => Fail
  }

  function Apply(act: Action, left: Option<Tree>, right: Option<Tree>): Option<Tree> {
    match act
    case Fail => None
    case Fold(value) => Some(Constantly(value))
    case CopyLeft => left
    case CopyRight => right
    case Keep(d) => Some(Build(d, left, right))
  }

  function DataOf(t: Option<Tree>): Option<Data> {
    if t.Some? then Some(t.value.data) else None
  }

  function Simplify(c: Config, l: nat, left: Option<Tree>, right: Option<Tree>): Option<Tree>
    requires Ok(c) && 0 < l < |c.nest|
  {
    Apply(Decide(c, l, DataOf(left), DataOf(right)), left, right)
  }

  /** The formula of a tree-shaped condition, by recursion over the labels. */
  function Compile(c: Config, l: nat): Option<Tree>
    requires Ok(c) && 0 < l < |c.nest|
    decreases l
  {
    ChildFacts(c, l);
    var left := if HasLeft(c, l) then Compile(c, LeftOf(c, l)) else None;
    var right := if HasRight(c, l) then Compile(c, RightOf(c, l)) else None;
    if (HasLeft(c, l) && left.None?) || (HasRight(c, l) && right.None?) then None
    else Simplify(c, l, left, right)
  }

  // ---- which conditions have a formula ----

  /** What find_roots asks of a label, given which of its operands hold comparisons: connectives have one bit and
      conditions for operands, or the constant 0 or 1 in front; a memcmp holds no comparison; every compare will do. */
  predicate SuitableNode(c: Config, l: nat)
    requires Ok(c) && 0 < l < |c.nest|
  {
    var info := c.table[l];
    match info.op
    case Not => info.size == 1 && HasLeft(c, l) != HasRight(c, l)
    case And => info.size == 1 && HasRight(c, l) && if info.l1 == 0 then info.op1 <= 1 else HasLeft(c, l)
    case Or => info.size == 1 && HasRight(c, l) && if info.l1 == 0 then info.op1 <= 1 else HasLeft(c, l)
    case Xor => info.size == 1 && HasRight(c, l) && (info.l1 == 0 || HasLeft(c, l))
    case ICmp(_) => true
    case Fmemcmp => !HasLeft(c, l) && !HasRight(c, l)
    case _ => false
  }

  /** And of all labels below it. */
  predicate Suitable(c: Config, l: nat)
    requires Ok(c) && 0 < l < |c.nest|
    decreases l
  {
    ChildFacts(c, l);
    && SuitableNode(c, l)
    && (HasLeft(c, l) ==> Suitable(c, LeftOf(c, l)))
    && (HasRight(c, l) ==> Suitable(c, RightOf(c, l)))
  }

  /** A condition has a formula if and only if all its labels are suitable. */
  lemma {:induction false} CompilesIff(c: Config, l: nat)
    requires Ok(c) && 0 < l < |c.nest|
    ensures Compile(c, l).Some? <==> Suitable(c, l)
    ensures Compile(c, l).Some? ==> Compile(c, l).value.data.bits == 1
    decreases l
  {
    hide Ok, SuitableNode, Simplify;
    ChildFacts(c, l);
    var left := if HasLeft(c, l) then Compile(c, LeftOf(c, l)) else None;
    var right := if HasRight(c, l) then Compile(c, RightOf(c, l)) else None;
    if HasLeft(c, l) { CompilesIff(c, LeftOf(c, l)); }
    if HasRight(c, l) { CompilesIff(c, RightOf(c, l)); }
    if left.Some? == HasLeft(c, l) && right.Some? == HasRight(c, l) { SimplifiesIff(c, l, left, right); }
  }

  lemma {:induction false} SimplifiesIff(c: Config, l: nat, left: Option<Tree>, right: Option<Tree>)
    requires Ok(c) && 0 < l < |c.nest| && left.Some? == HasLeft(c, l) && right.Some? == HasRight(c, l)
    requires left.Some? ==> left.value.data.bits == 1
    requires right.Some? ==> right.value.data.bits == 1
    ensures Simplify(c, l, left, right).Some? <==> SuitableNode(c, l)
    ensures Simplify(c, l, left, right).Some? ==> Simplify(c, l, left, right).value.data.bits == 1
  {
    hide Strip, Folds, EvalIcmp;
    assert c.nest[0] == 0;
  }

  // ---- meaning ----

  /** The value of the two operands of label `l` when the labels have values `v`. */
  function Lhs(table: seq<L.LabelInfo>, v: nat -> nat, l: nat): nat {
    if l >= |table| then 0 else if table[l].l1 == 0 then table[l].op1 else v(table[l].l1)
  }

  function Rhs(table: seq<L.LabelInfo>, v: nat -> nat, l: nat): nat {
    if l >= |table| then 0 else if table[l].l2 == 0 then table[l].op2 else v(table[l].l2)
  }

  /** `v` gives label `l` the value of its operator.  A memcmp result is 0 for equal buffers and 1 otherwise. */
  predicate LabelRespected(table: seq<L.LabelInfo>, v: nat -> nat, l: nat)
    requires l < |table|
  {
    var x, y := Lhs(table, v, l), Rhs(table, v, l);
    match table[l].op
    case ICmp(p) => v(l) == B(Compare(KindOf(p), x, y, table[l].size))
    case Fmemcmp => v(l) <= 1
    case ZExt => v(l) == v(table[l].l1)
    case Not => table[l].size == 1 ==> v(l) == B(v(table[l].l2) == 0)
    case And => table[l].size == 1 ==> v(l) == B(x != 0 && y != 0)
    case Or => table[l].size == 1 ==> v(l) == B(x != 0 || y != 0)
    case Xor => table[l].size == 1 ==> v(l) == B((x != 0) != (y != 0))
    case _ => true
  }

  /** A valuation of all labels that agrees with their operators; what other operators compute is left open. */
  ghost predicate Respects(table: seq<L.LabelInfo>, v: nat -> nat) {
    forall l :: 0 < l < |table| ==> LabelRespected(table, v, l)
  }

  function EnvOf(table: seq<L.LabelInfo>, v: nat -> nat): Env {
    Env((l: nat) => Lhs(table, v, l), (l: nat) => Rhs(table, v, l),
        (l: nat) => if l < |table| then table[l].size else 0, (l: nat) => v(l) != 0)
  }

  /** Nothing in the condition is folded to a constant, and booleans are only compared with 0 or 1. */
  ghost predicate Clean(c: Config, l: nat)
    requires Ok(c) && 0 < l < |c.nest|
    decreases l
  {
    ChildFacts(c, l);
    var info := c.table[l];
    && (HasLeft(c, l) ==> Clean(c, LeftOf(c, l)))
    && (HasRight(c, l) ==> Clean(c, RightOf(c, l)))
    && CleanNode(c, l)
  }

  /** The operand of a comparison is symbolic, has not been concretized, and is within the size limit if the comparison
      is not. */
  predicate StaysSymbolic(c: Config, l: nat, second: bool)
    requires Scanned(c) && 0 < l < |c.nest|
  {
    var k := if second then c.table[l].l2 else c.table[l].l1;
    && k != 0 && (l in c.concretize ==> if second then !c.concretize[l].1 else !c.concretize[l].0)
    && (c.size[l] > c.maxSize ==> c.size[k] <= c.maxSize)
  }

  /** A comparison with such an operand is not folded. */
  lemma {:induction false} FoldsIff(c: Config, l: nat)
    requires Scanned(c) && 0 < l < |c.nest|
    ensures Folds(c, l) <==> !StaysSymbolic(c, l, false) && !StaysSymbolic(c, l, true)
  {
  }

  ghost predicate CleanNode(c: Config, l: nat)
    requires Ok(c) && 0 < l < |c.nest|
  {
    var info := c.table[l];
    match info.op
    case Not => !HasLeft(c, l)
    case And => info.l1 == 0 ==> info.op1 != 0
    case Or => info.l1 == 0 ==> info.op1 != 1
    case Xor => info.l1 == 0 ==> info.op1 <= 1
    case ICmp(p) =>
      if HasLeft(c, l) then !HasRight(c, l) && (p == L.Bveq || p == L.Bvneq) && info.l2 == 0 && info.op2 <= 1
      else if HasRight(c, l) then (p == L.Bveq || p == L.Bvneq) && info.l1 == 0 && info.op1 <= 1
      else StaysSymbolic(c, l, false) || StaysSymbolic(c, l, true)
    case _ => true
  }

  lemma {:induction false} StripFromValue(c: Config, v: nat -> nat, orig: nat, l: nat)
    requires Ok(c) && l < |c.nest| && Respects(c.table, v) && v(orig) == v(l)
    ensures v(StripFrom(c.table, orig, l)) == v(l)
    decreases l
  {
    if c.table[l].op == L.ZExt {
      var child := c.table[l].l1;
      assert LabelRespected(c.table, v, l);
      if !(c.table[child].size == 1 || L.IsCompare(c.table[child].op)) {
        StripFromValue(c, v, orig, child);
      }
    }
  }

  /** A tree that stands for the truth of a one-bit value. */
  ghost predicate Denotes(t: Tree, env: Env, value: nat) {
    t.data.kind != Bool && t.data.bits == 1 && value <= 1 && (Eval(t, env) <==> value != 0)
  }

  ghost predicate OptDenotes(t: Option<Tree>, env: Env, value: nat) {
    t.Some? ==> Denotes(t.value, env, value)
  }

  lemma {:induction false} SimplifyMeaning(c: Config, v: nat -> nat, l: nat, left: Option<Tree>, right: Option<Tree>)
    requires Ok(c) && 0 < l < |c.nest| && Respects(c.table, v) && CleanNode(c, l)
    requires left.Some? <==> HasLeft(c, l)
    requires right.Some? <==> HasRight(c, l)
    requires OptDenotes(left, EnvOf(c.table, v), v(c.table[l].l1))
    requires OptDenotes(right, EnvOf(c.table, v), v(c.table[l].l2))
    requires Simplify(c, l, left, right).Some?
    ensures Denotes(Simplify(c, l, left, right).value, EnvOf(c.table, v), v(l))
  {
    hide Strip, Folds, Decide, Apply, Denotes, CleanNode, Eval;
    assert LabelRespected(c.table, v, l);
    hide LabelRespected;
    match c.table[l].op
    case Not => SimplifyNotMeaning(c, v, l, left, right);
    case And => SimplifyJunctionMeaning(c, v, l, left, right);
    case Or => SimplifyJunctionMeaning(c, v, l, left, right);
    case Xor => SimplifyNotMeaning(c, v, l, left, right);
    case ICmp(p) => SimplifyCmpMeaning(c, v, l, left, right);
    case _ => SimplifyOtherMeaning(c, v, l, left, right);
  }

  lemma {:induction false} SimplifyNotMeaning(c: Config, v: nat -> nat, l: nat, left: Option<Tree>, right: Option<Tree>)
    requires Ok(c) && 0 < l < |c.nest| && (c.table[l].op == L.Not || c.table[l].op == L.Xor)
    requires LabelRespected(c.table, v, l) && CleanNode(c, l)
    requires left.Some? <==> HasLeft(c, l)
    requires right.Some? <==> HasRight(c, l)
    requires OptDenotes(left, EnvOf(c.table, v), v(c.table[l].l1))
    requires OptDenotes(right, EnvOf(c.table, v), v(c.table[l].l2))
    requires Simplify(c, l, left, right).Some?
    ensures Denotes(Simplify(c, l, left, right).value, EnvOf(c.table, v), v(l))
  {
    hide Strip, Folds, DecideCmp, DecideJunction, EnvOf, Compare, CompareLeaf;
    ChildFacts(c, l);
  }

  lemma {:induction false} SimplifyJunctionMeaning(c: Config, v: nat -> nat, l: nat, left: Option<Tree>, right: Option<Tree>)
    requires Ok(c) && 0 < l < |c.nest| && (c.table[l].op == L.And || c.table[l].op == L.Or)
    requires LabelRespected(c.table, v, l) && CleanNode(c, l)
    requires left.Some? <==> HasLeft(c, l)
    requires right.Some? <==> HasRight(c, l)
    requires OptDenotes(left, EnvOf(c.table, v), v(c.table[l].l1))
    requires OptDenotes(right, EnvOf(c.table, v), v(c.table[l].l2))
    requires Simplify(c, l, left, right).Some?
    ensures Denotes(Simplify(c, l, left, right).value, EnvOf(c.table, v), v(l))
  {
    hide Strip, Folds, DecideCmp, DecideNot, DecideXor, EnvOf, Compare, CompareLeaf;
    ChildFacts(c, l);
  }

  /** A memcmp is a leaf, and nothing else is compiled. */
  lemma {:induction false} SimplifyOtherMeaning(c: Config, v: nat -> nat, l: nat, left: Option<Tree>, right: Option<Tree>)
    requires Ok(c) && 0 < l < |c.nest| && !c.table[l].op.ICmp? && c.table[l].op !in {L.Not, L.And, L.Or, L.Xor}
    requires LabelRespected(c.table, v, l) && Simplify(c, l, left, right).Some?
    ensures Denotes(Simplify(c, l, left, right).value, EnvOf(c.table, v), v(l))
  {
    hide Strip, Folds, DecideCmp, DecideNot, DecideXor, DecideJunction, Compare, CompareLeaf;
  }

  lemma {:induction false} SimplifyCmpMeaning(c: Config, v: nat -> nat, l: nat, left: Option<Tree>, right: Option<Tree>)
    requires Ok(c) && 0 < l < |c.nest| && c.table[l].op.ICmp? && LabelRespected(c.table, v, l) && CleanNode(c, l)
    requires left.Some? <==> HasLeft(c, l)
    requires right.Some? <==> HasRight(c, l)
    requires OptDenotes(left, EnvOf(c.table, v), v(c.table[l].l1))
    requires OptDenotes(right, EnvOf(c.table, v), v(c.table[l].l2))
    requires Simplify(c, l, left, right).Some?
    ensures Denotes(Simplify(c, l, left, right).value, EnvOf(c.table, v), v(l))
  {
    hide Strip, Folds, EvalIcmp, Denotes, Apply, KindOf, Compare, StaysSymbolic;
    FoldsIff(c, l);
    var info := c.table[l];
    if left.None? && right.None? {
      LeafMeaning(c, v, l);
    } else if left.Some? {
      BoolCompareMeaning(info.op.pred, info.op2, left.value, CopyLeft, left, None, EnvOf(c.table, v), v(info.l1));
      CompareSwaps(info.op.pred, v(info.l1), info.op2, info.size);
    } else {
      BoolCompareMeaning(info.op.pred, info.op1, right.value, CopyRight, None, right, EnvOf(c.table, v), v(info.l2));
      CompareSwaps(info.op.pred, v(info.l2), info.op1, info.size);
    }
  }

  /** A comparison that stays a leaf. */
  lemma {:induction false} LeafMeaning(c: Config, v: nat -> nat, l: nat)
    requires Ok(c) && 0 < l < |c.nest| && c.table[l].op.ICmp? && LabelRespected(c.table, v, l)
    ensures
      var r := Apply(Keep(ONE_BIT.(kind := KindOf(c.table[l].op.pred), node := l)), None, None);
      r.Some? && Denotes(r.value, EnvOf(c.table, v), v(l))
  {
    hide Compare;
    assert KindOf(c.table[l].op.pred) != Bool && KindOf(c.table[l].op.pred) != Memcmp;
  }

  lemma {:induction false} CompareSwaps(p: L.Predicate, x: nat, k: nat, bits: nat)
    requires p == L.Bveq || p == L.Bvneq
    ensures Compare(KindOf(p), x, k, bits) == Compare(KindOf(p), k, x, bits) == ((x == k) == (p == L.Bveq))
  {
  }

  /** A boolean compared with 0 or 1. */
  lemma {:induction false} BoolCompareMeaning(p: L.Predicate, k: nat, t: Tree, copy: Action, left: Option<Tree>,
                                              right: Option<Tree>, env: Env, x: nat)
    requires (p == L.Bveq || p == L.Bvneq) && k <= 1 && Denotes(t, env, x)
    requires if copy == CopyLeft then left == Some(t) && right == None else copy == CopyRight && left == None && right == Some(t)
    ensures
      var r := Apply(DecideBoolCompare(p, 0, k, t.data, copy), left, right);
      r.Some? && Denotes(r.value, env, B((x == k) == (p == L.Bveq)))
  {
  }

  /** The compiled formula is true exactly when the condition label has a non-zero value. */
  lemma {:induction false} CompileMeaning(c: Config, v: nat -> nat, l: nat)
    requires Ok(c) && 0 < l < |c.nest| && Respects(c.table, v) && Clean(c, l) && Compile(c, l).Some?
    ensures Denotes(Compile(c, l).value, EnvOf(c.table, v), v(l))
    decreases l
  {
    ChildFacts(c, l);
    var left := if HasLeft(c, l) then Compile(c, LeftOf(c, l)) else None;
    var right := if HasRight(c, l) then Compile(c, RightOf(c, l)) else None;
    if HasLeft(c, l) {
      CompileMeaning(c, v, LeftOf(c, l));
      StripFromValue(c, v, c.table[l].l1, c.table[l].l1);
    }
    if HasRight(c, l) {
      CompileMeaning(c, v, RightOf(c, l));
      StripFromValue(c, v, c.table[l].l2, c.table[l].l2);
    }
    SimplifyMeaning(c, v, l, left, right);
  }

  /** No exclusive or of two symbolic booleans, for which there is no normal form. */
  ghost predicate NoXor(c: Config, l: nat)
    requires Ok(c) && 0 < l < |c.nest|
    decreases l
  {
    && (HasLeft(c, l) ==> NoXor(c, LeftOf(c, l)))
    && (HasRight(c, l) ==> NoXor(c, RightOf(c, l)))
    && (c.table[l].op == L.Xor ==> c.table[l].l1 == 0)
  }

  /** A clean condition does not compile to a constant. */
  lemma {:induction false} CleanIsSymbolic(c: Config, l: nat)
    requires Ok(c) && 0 < l < |c.nest| && Clean(c, l) && Compile(c, l).Some?
    ensures Compile(c, l).value.data.kind != Bool && Compile(c, l).value.data.bits == 1
    decreases l
  {
    ChildFacts(c, l);
    var left := if HasLeft(c, l) then Compile(c, LeftOf(c, l)) else None;
    var right := if HasRight(c, l) then Compile(c, RightOf(c, l)) else None;
    if HasLeft(c, l) { CleanIsSymbolic(c, LeftOf(c, l)); }
    if HasRight(c, l) { CleanIsSymbolic(c, RightOf(c, l)); }
    SimplifyIsSymbolic(c, l, left, right);
  }

  lemma {:induction false} SimplifyIsSymbolic(c: Config, l: nat, left: Option<Tree>, right: Option<Tree>)
    requires Ok(c) && 0 < l < |c.nest| && CleanNode(c, l)
    requires left.Some? <==> HasLeft(c, l)
    requires right.Some? <==> HasRight(c, l)
    requires left.Some? ==> left.value.data.kind != Bool && left.value.data.bits == 1
    requires right.Some? ==> right.value.data.kind != Bool && right.value.data.bits == 1
    requires Simplify(c, l, left, right).Some?
    ensures
      var d := Simplify(c, l, left, right).value.data;
      d.kind != Bool && d.bits == 1
  {
    hide Strip, Folds, EvalIcmp, StaysSymbolic;
    FoldsIff(c, l);
    ChildFacts(c, l);
    if c.table[l].op.ICmp? { assert IsRelational(KindOf(c.table[l].op.pred)); }
  }

  lemma {:induction false} CompileIsFormula(c: Config, l: nat)
    requires Ok(c) && 0 < l < |c.nest| && Clean(c, l) && NoXor(c, l) && Compile(c, l).Some?
    ensures IsFormula(Compile(c, l).value)
    decreases l
  {
    ChildFacts(c, l);
    var left := if HasLeft(c, l) then Compile(c, LeftOf(c, l)) else None;
    var right := if HasRight(c, l) then Compile(c, RightOf(c, l)) else None;
    if HasLeft(c, l) {
      CompileIsFormula(c, LeftOf(c, l));
      CleanIsSymbolic(c, LeftOf(c, l));
    }
    if HasRight(c, l) {
      CompileIsFormula(c, RightOf(c, l));
      CleanIsSymbolic(c, RightOf(c, l));
    }
    SimplifyIsFormula(c, l, left, right);
  }

  lemma {:induction false} SimplifyIsFormula(c: Config, l: nat, left: Option<Tree>, right: Option<Tree>)
    requires Ok(c) && 0 < l < |c.nest| && CleanNode(c, l) && (c.table[l].op == L.Xor ==> c.table[l].l1 == 0)
    requires left.Some? <==> HasLeft(c, l)
    requires right.Some? <==> HasRight(c, l)
    requires left.Some? ==> IsFormula(left.value) && left.value.data.kind != Bool
    requires right.Some? ==> IsFormula(right.value) && right.value.data.kind != Bool
    requires Simplify(c, l, left, right).Some?
    ensures IsFormula(Simplify(c, l, left, right).value)
  {
    hide Strip, Folds, EvalIcmp, StaysSymbolic;
    FoldsIff(c, l);
    ChildFacts(c, l);
    if c.table[l].op.ICmp? { assert IsRelational(KindOf(c.table[l].op.pred)); }
  }

  /** A boolean compared with the constant `k`: the rule is right for both values of the boolean
      exactly when `k` is 0 or 1. */
  lemma {:induction false} BoolCompareExact(pred: L.Predicate, k: nat, t: Tree, yes: Env, no: Env)
    requires pred == L.Bveq || pred == L.Bvneq
    requires Denotes(t, yes, 1) && Denotes(t, no, 0)
    ensures
      var r := Apply(DecideBoolCompare(pred, 0, k, t.data, CopyLeft), Some(t), None);
      && r.Some?
      && (Eval(r.value, yes) == Compare(KindOf(pred), 1, k, 1) && Eval(r.value, no) == Compare(KindOf(pred), 0, k, 1)
          <==> k <= 1)
  {
  }
}
