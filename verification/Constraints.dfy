/** parsers/rgd-parser.cpp, map_arg and do_uta_rel: the AST and the arguments of one constraint, built in an arena whose
    capacity is the AST size that scan_labels cached. */
module Constraints {
  import opened Base
  import L = Labels
  import opened Ast
  import opened FindRoots
  import S = ScanLabels
  import opened AstSizes

  // ---- arguments ----

  /** An argument of the compiled function: an input byte, or a constant with its value. */
  datatype Arg = Arg(symbolic: bool, value: nat)

  datatype Arguments = Arguments(
    args: seq<Arg>,               // input_args
    localMap: map<nat, nat>,      // local_map: offset to argument
    inputs: map<nat, nat>,        // inputs: offset to value
    shapes: map<nat, nat>,
    constNum: nat)

  const NO_ARGUMENTS := Arguments([], map[], map[], map[], 0)

  function Constants(args: seq<Arg>): nat {
    if args == [] then 0 else Constants(args[..|args| - 1]) + if args[|args| - 1].symbolic then 0 else 1
  }

  /** Argument `i` stands for the byte at `o`. */
  ghost predicate StandsFor(x: Arguments, i: nat, o: nat) {
    o in x.localMap && x.localMap[o] == i
  }

  ghost predicate Indexed(x: Arguments) {
    forall o :: o in x.localMap ==> x.localMap[o] < |x.args| && x.args[x.localMap[o]] == Arg(true, 0)
  }

  ghost predicate Injective(x: Arguments) {
    forall o, p, i :: StandsFor(x, i, o) && StandsFor(x, i, p) ==> o == p
  }

  ghost predicate Covered(x: Arguments) {
    forall i :: 0 <= i < |x.args| && x.args[i].symbolic ==> exists o :: StandsFor(x, i, o)
  }

  /** Every byte has an argument of its own, every symbolic argument is some byte's, and the constants are counted. */
  ghost predicate ArgumentsOk(x: Arguments) {
    && x.inputs.Keys == x.localMap.Keys <= x.shapes.Keys && x.constNum == Constants(x.args)
    && Indexed(x) && Injective(x) && Covered(x)
  }

  function MapOne(x: Arguments, buf: seq<nat>, offset: nat, shape: nat): Arguments {
    var y := if offset in x.localMap then x
             else x.(args := x.args + [Arg(true, 0)], localMap := x.localMap[offset := |x.args|],
                     inputs := x.inputs[offset := if offset < |buf| then buf[offset] else 0]);
    y.(shapes := y.shapes[offset := shape])
  }

  /** The bytes offset .. offset + n of a read of `length` bytes. */
  function MapFirst(x: Arguments, buf: seq<nat>, offset: nat, length: nat, n: nat): Arguments {
    if n == 0 then x else MapOne(MapFirst(x, buf, offset, length, n - 1), buf, offset + n - 1, if n == 1 then length else 0)
  }

  function PushConstant(x: Arguments, v: nat): Arguments {
    x.(args := x.args + [Arg(false, v)], constNum := x.constNum + 1)
  }

  lemma {:induction false} CoveredGrows(x: Arguments, y: Arguments)
    requires Covered(x) && x.args <= y.args && |y.args| <= |x.args| + 1
    requires forall o :: o in x.localMap ==> o in y.localMap && y.localMap[o] == x.localMap[o]
    requires |y.args| > |x.args| && y.args[|x.args|].symbolic ==> exists o :: StandsFor(y, |x.args|, o)
    ensures Covered(y)
  {
    forall i | 0 <= i < |y.args| && y.args[i].symbolic ensures exists o :: StandsFor(y, i, o) {
      if i < |x.args| {
        assert x.args[i].symbolic;
        var o :| StandsFor(x, i, o);
        assert StandsFor(y, i, o);
      }
    }
  }

  lemma {:induction false} MapOneOk(x: Arguments, buf: seq<nat>, offset: nat, shape: nat)
    requires ArgumentsOk(x)
    ensures var y := MapOne(x, buf, offset, shape); ArgumentsOk(y) && y.localMap.Keys == x.localMap.Keys + {offset}
  {
    hide *;
    var y := MapOne(x, buf, offset, shape);
    ArgumentsAre(x);
    ArgumentsAre(y);
    MapOneShape(x, buf, offset, shape);
    MapOneIndexed(x, buf, offset, shape);
    InjectiveGrows(x, y, offset);
    CoveredGrows(x, y);
  }

  lemma {:induction false} ArgumentsAre(x: Arguments)
    ensures ArgumentsOk(x) <==>
      && x.inputs.Keys == x.localMap.Keys <= x.shapes.Keys && x.constNum == Constants(x.args)
      && Indexed(x) && Injective(x) && Covered(x)
  {
    hide Constants, Indexed, Injective, Covered;
  }

  /** The keys, the count of constants and the new argument. */
  lemma {:induction false} MapOneShape(x: Arguments, buf: seq<nat>, offset: nat, shape: nat)
    requires x.inputs.Keys == x.localMap.Keys <= x.shapes.Keys && x.constNum == Constants(x.args)
    ensures
      var y := MapOne(x, buf, offset, shape);
      && y.inputs.Keys == y.localMap.Keys == x.localMap.Keys + {offset} && y.localMap.Keys <= y.shapes.Keys
      && y.constNum == Constants(y.args) && x.args <= y.args && |y.args| <= |x.args| + 1
      && (forall o :: o in x.localMap ==> o in y.localMap && y.localMap[o] == x.localMap[o])
      && (y.localMap == x.localMap || (offset !in x.localMap && y.localMap == x.localMap[offset := |x.args|]))
      && (|y.args| > |x.args| && y.args[|x.args|].symbolic ==> exists o :: StandsFor(y, |x.args|, o))
  {
    var y := MapOne(x, buf, offset, shape);
    if offset !in x.localMap { assert StandsFor(y, |x.args|, offset) && y.args[..|x.args|] == x.args; }
  }

  lemma {:induction false} MapOneIndexed(x: Arguments, buf: seq<nat>, offset: nat, shape: nat)
    requires Indexed(x)
    ensures Indexed(MapOne(x, buf, offset, shape))
  {
  }

  lemma {:induction false} InjectiveGrows(x: Arguments, y: Arguments, offset: nat)
    requires Injective(x) && Indexed(x)
    requires y.localMap == x.localMap || (offset !in x.localMap && y.localMap == x.localMap[offset := |x.args|])
    ensures Injective(y)
  {
    forall o, p, i | StandsFor(y, i, o) && StandsFor(y, i, p) ensures o == p {
      assert o in x.localMap ==> StandsFor(x, x.localMap[o], o);
      assert p in x.localMap ==> StandsFor(x, x.localMap[p], p);
    }
  }

  lemma {:induction false} PushConstantOk(x: Arguments, v: nat)
    requires ArgumentsOk(x)
    ensures ArgumentsOk(PushConstant(x, v))
  {
    var y := PushConstant(x, v);
    assert y.args[..|x.args|] == x.args;
    CoveredGrows(x, y);
    assert forall o, i :: StandsFor(y, i, o) ==> StandsFor(x, i, o);
  }

  /** map_arg gives every byte read an argument. */
  method MapArg(x: Arguments, buf: seq<nat>, offset: nat, length: nat) returns (y: Arguments)
    requires ArgumentsOk(x)
    ensures y == MapFirst(x, buf, offset, length, length) && ArgumentsOk(y)
    ensures y.localMap.Keys == x.localMap.Keys + S.Run(offset, length)
  {
    hide ArgumentsOk, MapOne;
    y := x;
    var i := 0;
    while i < length
      invariant 0 <= i <= length && y == MapFirst(x, buf, offset, length, i) && ArgumentsOk(y)
      invariant y.localMap.Keys == x.localMap.Keys + S.Run(offset, i)
    {
      var shape := if i == 0 then length else 0;
      MapOneOk(y, buf, offset + i, shape);
      y := MapOne(y, buf, offset + i, shape);
      i := i + 1;
    }
  }

  // ---- what is built ----

  function OpKind(op: L.Op): Option<Kind> {
    match op
    case Extract => Some(Kind.Extract)
    case Trunc => Some(Kind.Extract)
    case Concat => Some(Kind.Concat)
    case ZExt => Some(Kind.ZExt)
    case SExt => Some(Kind.SExt)
    case Add => Some(Kind.Add)
    case Sub => Some(Kind.Sub)
    case Mul => Some(Kind.Mul)
    case UDiv => Some(Kind.UDiv)
    case SDiv => Some(Kind.SDiv)
    case URem => Some(Kind.URem)
    case SRem => Some(Kind.SRem)
    case Shl => Some(Kind.Shl)
    case LShr => Some(Kind.LShr)
    case AShr => Some(Kind.AShr)
    case And => Some(Kind.And)
    case Or => Some(Kind.Or)
    case Xor => Some(Kind.Xor)
    case ICmp(p) => Some(KindOf(p))
    case _ => None
  }

  /** The operators that do_uta_rel expresses by a node of their own. */
  predicate IsExpressible(op: L.Op) {
    op.ICmp? || op in {L.Extract, L.Trunc, L.Concat, L.ZExt, L.SExt, L.Add, L.Sub, L.Mul, L.UDiv, L.SDiv, L.URem, L.SRem,
                       L.Shl, L.LShr, L.AShr, L.And, L.Or, L.Xor}
  }

  lemma {:induction false} ExpressibleHasKind(op: L.Op)
    ensures IsExpressible(op) <==> OpKind(op).Some?
  {
  }

  /** The operand of `l` is replaced by a constant although it is symbolic or might be. */
  predicate Touches(conc: map<nat, (bool, bool)>, l: nat) {
    l in conc && conc[l] != (false, false)
  }

  /** The constant side of an operator is acceptable. */
  predicate FixedOk(conc: map<nat, (bool, bool)>, info: L.LabelInfo, l: nat, other: nat) {
    (Touches(conc, l) ==> info.op.ICmp?) && (info.op == L.Concat ==> other != 0)
  }

  /** The labels for which do_uta_rel succeeds. */
  predicate Buildable(table: seq<L.LabelInfo>, conc: map<nat, (bool, bool)>, contents: map<nat, seq<nat>>, l: nat)
    requires L.Ordered(table) && l < |table|
    decreases l
  {
    l > 0 &&
    var info := table[l];
    if info.op == L.Input || info.op == L.Load then true
    else if info.op == L.Fmemcmp then
      && (if info.l1 > 0 then Buildable(table, conc, contents, info.l1) else l in contents)
      && Buildable(table, conc, contents, info.l2)
    else
      && IsExpressible(info.op)
      && (if !LeftFixed(conc, l) && info.l1 > 0 then Buildable(table, conc, contents, info.l1)
          else FixedOk(conc, info, l, info.l2))
      && (IsUnary(info.op) ||
          if !RightFixed(conc, l) && info.l2 > 0 then Buildable(table, conc, contents, info.l2)
          else FixedOk(conc, info, l, info.l1))
  }

  /** The same by the operators alone: all of them can be expressed, constant buffers are recorded, and no Concat is of two
      constants. */
  predicate AllExpressible(table: seq<L.LabelInfo>, conc: map<nat, (bool, bool)>, contents: map<nat, seq<nat>>, l: nat)
    requires L.Ordered(table) && l < |table|
    decreases l
  {
    l > 0 &&
    var info := table[l];
    if info.op == L.Input || info.op == L.Load then true
    else if info.op == L.Fmemcmp then
      && (if info.l1 == 0 then l in contents else AllExpressible(table, conc, contents, info.l1))
      && AllExpressible(table, conc, contents, info.l2)
    else
      && IsExpressible(info.op) && (info.op == L.Concat ==> info.l1 != 0 || info.l2 != 0)
      && (info.l1 == 0 || LeftFixed(conc, l) || AllExpressible(table, conc, contents, info.l1))
      && (info.l2 == 0 || info.op in {L.ZExt, L.SExt, L.Extract, L.Trunc} || RightFixed(conc, l)
          || AllExpressible(table, conc, contents, info.l2))
  }

  /** do_uta_rel succeeds for exactly these labels, as only comparisons are concretized. */
  lemma {:induction false} BuildableIff(table: seq<L.LabelInfo>, conc: map<nat, (bool, bool)>, contents: map<nat, seq<nat>>,
                                        l: nat)
    requires L.Ordered(table) && l < |table| && OnlyCompares(table, conc, |table|)
    ensures Buildable(table, conc, contents, l) <==> AllExpressible(table, conc, contents, l)
    decreases l
  {
    hide IsExpressible;
    if l > 0 {
      var info := table[l];
      BuildableIff(table, conc, contents, info.l1);
      BuildableIff(table, conc, contents, info.l2);
      assert Touches(conc, l) ==> info.op.ICmp?;
    }
  }

  /** The operands of a label that are not taken as constants. */
  predicate TakesLeft(conc: map<nat, (bool, bool)>, info: L.LabelInfo, l: nat) {
    info.op == L.Fmemcmp || !LeftFixed(conc, l)
  }

  predicate TakesRight(conc: map<nat, (bool, bool)>, info: L.LabelInfo, l: nat) {
    info.op == L.Fmemcmp || (!IsUnary(info.op) && !RightFixed(conc, l))
  }

  /** The offsets of the input bytes that the constraint of `l` reads. */
  ghost function Offsets(table: seq<L.LabelInfo>, conc: map<nat, (bool, bool)>, l: nat): set<nat>
    requires L.Ordered(table) && l < |table|
    decreases l
  {
    if l == 0 then {}
    else
      var info := table[l];
      if info.op == L.Input then S.Run(info.op1, 1)
      else if info.op == L.Load then S.Run(table[info.l1].op1, info.l2)
      else
        (if TakesLeft(conc, info, l) then Offsets(table, conc, info.l1) else {})
        + (if TakesRight(conc, info, l) then Offsets(table, conc, info.l2) else {})
  }

  /** A label that was expanded before. */
  function Again(table: seq<L.LabelInfo>, l: nat): Tree
    requires l < |table|
  {
    T0(EMPTY.data.(bits := table[l].size, node := l))
  }

  function NodeData(info: L.LabelInfo, l: nat): Data {
    if info.op == L.Fmemcmp then Data(Memcmp, 1, 0, false, l)
    else Data(if OpKind(info.op).Some? then OpKind(info.op).value else Bool, info.size,
              if info.op == L.Extract then info.op2 else 0, false, l)
  }

  /** What the builder reads. */
  datatype Source = Source(
    table: seq<L.LabelInfo>,
    conc: map<nat, (bool, bool)>,         // concretize_node
    contents: map<nat, seq<nat>>)         // memcmp_cache_

  /** The width of a constant operand. */
  function ConstantBits(info: L.LabelInfo, otherSize: nat): nat {
    if info.op == L.Fmemcmp then 8 * info.size
    else if info.op == L.Concat then (info.size - otherSize) % WRAP32
    else info.size
  }

  /** A buffer in pieces of 8 bytes, the last one possibly shorter. */
  function Chunks(bytes: seq<nat>, size: nat): seq<nat> {
    seq((size + 7) / 8, i requires 0 <= i => ChunkValue(bytes, 8 * i, if 8 * (i + 1) <= size then 8 else size % 8))
  }

  function ChunkValue(bytes: seq<nat>, at: nat, n: nat): nat {
    if n == 0 then 0
    else ChunkValue(bytes, at, n - 1) + (if at + n - 1 < |bytes| then bytes[at + n - 1] % 256 else 0) * Pow2(8 * (n - 1))
  }

  /** The tree shows label `l`: expanded into its operands, or as a reference to an earlier expansion. */
  ghost predicate Shows(s: Source, args: seq<Arg>, t: Tree, l: nat)
    requires L.Ordered(s.table) && l < |s.table|
    decreases l
  {
    var info := s.table[l];
    t == Again(s.table, l) ||
    if l == 0 then false
    else if info.op == L.Input then t == T0(Data(Read, 8, info.op1, false, l))
    else if info.op == L.Load then t == T0(Data(Read, 8 * info.l2, s.table[info.l1].op1, false, l))
    else if IsUnary(info.op) then
      t.T1? && t.data == NodeData(info, l) && ShowsOperand(s, args, t.sub, false, l)
    else
      && t.T2? && t.data == NodeData(info, l)
      && ShowsOperand(s, args, t.left, false, l)
      && ShowsOperand(s, args, t.right, true, l)
  }

  function OperandLabel(s: Source, second: bool, l: nat): nat
    requires l < |s.table|
  {
    if second then s.table[l].l2 else s.table[l].l1
  }

  /** The operand is taken as a constant. */
  predicate IsFixed(s: Source, second: bool, l: nat)
    requires l < |s.table|
  {
    if second then !TakesRight(s.conc, s.table[l], l) else !TakesLeft(s.conc, s.table[l], l)
  }

  /** An operand of label `l`: its tree, or a constant whose arguments hold the recorded values. */
  ghost predicate ShowsOperand(s: Source, args: seq<Arg>, t: Tree, second: bool, l: nat)
    requires L.Ordered(s.table) && 0 < l < |s.table|
    decreases l, 0
  {
    var k := OperandLabel(s, second, l);
    if k == 0 || IsFixed(s, second, l) then HoldsConstant(s, args, t, second, l) else Shows(s, args, t, k)
  }

  /** A constant leaf points at its values among the arguments. */
  predicate HoldsConstant(s: Source, args: seq<Arg>, t: Tree, second: bool, l: nat)
    requires L.Ordered(s.table) && 0 < l < |s.table|
  {
    && t.T0? && t.data.kind == Constant && t.data.node == 0 && t.data.bits == OperandBits(s, second, l)
    && Holds(args, t.data.index, OperandValues(s, second, l))
  }

  predicate Holds(args: seq<Arg>, at: nat, values: seq<nat>) {
    at + |values| <= |args| && forall j :: 0 <= j < |values| ==> args[at + j] == Arg(false, values[j])
  }

  function OperandBits(s: Source, second: bool, l: nat): nat
    requires L.Ordered(s.table) && 0 < l < |s.table|
  {
    ConstantBits(s.table[l], s.table[if second then s.table[l].l1 else s.table[l].l2].size)
  }

  /** The concrete value of an operand; for memcmp, the recorded buffer in pieces. */
  function OperandValues(s: Source, second: bool, l: nat): seq<nat>
    requires l < |s.table|
  {
    var info := s.table[l];
    if second then [info.op2]
    else if info.op != L.Fmemcmp then [info.op1]
    else if l in s.contents then Chunks(s.contents[l], info.size) else []
  }

  /** More arguments do not matter. */
  lemma {:induction false} ShowsGrow(s: Source, args: seq<Arg>, later: seq<Arg>, t: Tree, l: nat)
    requires L.Ordered(s.table) && l < |s.table| && args <= later && Shows(s, args, t, l)
    ensures Shows(s, later, t, l)
    decreases l, 1
  {
    var info := s.table[l];
    if t != Again(s.table, l) && info.op != L.Input && info.op != L.Load {
      if IsUnary(info.op) {
        ShowsOperandGrow(s, args, later, t.sub, false, l);
      } else {
        ShowsOperandGrow(s, args, later, t.left, false, l);
        ShowsOperandGrow(s, args, later, t.right, true, l);
      }
    }
  }

  lemma {:induction false} ShowsOperandGrow(s: Source, args: seq<Arg>, later: seq<Arg>, t: Tree, second: bool, l: nat)
    requires L.Ordered(s.table) && 0 < l < |s.table| && args <= later && ShowsOperand(s, args, t, second, l)
    ensures ShowsOperand(s, later, t, second, l)
    decreases l, 0
  {
    var k := OperandLabel(s, second, l);
    if k != 0 && !IsFixed(s, second, l) { ShowsGrow(s, args, later, t, k); }
  }

  /** The labels expanded in a tree. */
  function Opened(t: Tree): set<nat> {
    match t
    case T0(d) => if d.kind == Bool || d.kind == Constant then {} else {d.node}
    case T1(d, s) => {d.node} + Opened(s)
    case T2(d, x, y) => {d.node} + Opened(x) + Opened(y)
  }

  /** The labels it refers to without expanding them. */
  function Referred(t: Tree): set<nat> {
    match t
    case T0(d) => if d.kind == Bool then {d.node} else {}
    case T1(_, s) => Referred(s)
    case T2(_, x, y) => Referred(x) + Referred(y)
  }

  /** No label is expanded twice. */
  predicate Once(t: Tree) {
    match t
    case T0(_) => true
    case T1(d, s) => Once(s) && d.node !in Opened(s)
    case T2(d, x, y) => Once(x) && Once(y) && d.node !in Opened(x) && d.node !in Opened(y) && Opened(x) !! Opened(y)
  }

  /** What is promised about the tree of `l`, built when the labels in `before` had been expanded. */
  ghost predicate Tells(s: Source, args: seq<Arg>, before: set<nat>, after: set<nat>, t: Tree, l: nat)
    requires L.Ordered(s.table) && 0 < l < |s.table|
  {
    && Shows(s, args, t, l) && Count(t) <= Cost(s.table, s.conc, l)
    && Once(t) && Opened(t) !! before && Referred(t) <= before + Opened(t)
    && after == before + (Opened(t) - {l}) && (l in before || l in Opened(t))
    && forall k :: k in Opened(t) ==> 0 < k <= l
  }

  /** The most nodes an operand takes. */
  function OperandCost(s: Source, second: bool, l: nat): nat
    requires L.Ordered(s.table) && 0 < l < |s.table|
  {
    if IsFixed(s, second, l) then 1 else Cost(s.table, s.conc, OperandLabel(s, second, l))
  }

  /** The same for an operand: a constant, or a label that counts as expanded afterwards. */
  ghost predicate TellsOperand(s: Source, args: seq<Arg>, before: set<nat>, after: set<nat>, t: Tree, second: bool, l: nat)
    requires L.Ordered(s.table) && 0 < l < |s.table|
  {
    && ShowsOperand(s, args, t, second, l) && Count(t) <= OperandCost(s, second, l)
    && Once(t) && Opened(t) !! before && Referred(t) <= before + Opened(t)
    && after == before + Opened(t)
    && forall m :: m in Opened(t) ==> 0 < m < l
  }

  lemma {:induction false} OperandOf(s: Source, args: seq<Arg>, before: set<nat>, after: set<nat>, t: Tree, second: bool, l: nat)
    requires L.Ordered(s.table) && 0 < l < |s.table| && 0 < OperandLabel(s, second, l) < l && !IsFixed(s, second, l)
    requires Tells(s, args, before, after, t, OperandLabel(s, second, l))
    ensures TellsOperand(s, args, before, after + {OperandLabel(s, second, l)}, t, second, l)
  {
    hide Shows, Cost, IsFixed, OperandLabel;
  }

  lemma {:induction false} ConstantOf(s: Source, args: seq<Arg>, before: set<nat>, t: Tree, second: bool, l: nat)
    requires L.Ordered(s.table) && 0 < l < |s.table| && (OperandLabel(s, second, l) == 0 || IsFixed(s, second, l))
    requires HoldsConstant(s, args, t, second, l)
    ensures TellsOperand(s, args, before, before, t, second, l)
  {
    hide Holds, OperandBits, OperandValues;
  }

  lemma {:induction false} TellsLeaf(s: Source, args: seq<Arg>, before: set<nat>, l: nat)
    requires L.Ordered(s.table) && 0 < l < |s.table|
    ensures l in before ==> Tells(s, args, before, before, Again(s.table, l), l)
    ensures l !in before && s.table[l].op == L.Input ==>
      Tells(s, args, before, before, T0(Data(Read, 8, s.table[l].op1, false, l)), l)
    ensures l !in before && s.table[l].op == L.Load ==>
      Tells(s, args, before, before, T0(Data(Read, 8 * s.table[l].l2, s.table[s.table[l].l1].op1, false, l)), l)
  {
  }

  lemma {:induction false} TellsUnary(s: Source, args: seq<Arg>, before: set<nat>, after: set<nat>, t: Tree, l: nat)
    requires L.Ordered(s.table) && 0 < l < |s.table| && l !in before && IsUnary(s.table[l].op)
    requires TellsOperand(s, args, before, after, t, false, l)
    ensures Tells(s, args, before, after, T1(NodeData(s.table[l], l), t), l)
  {
    hide ShowsOperand;
    var u := T1(NodeData(s.table[l], l), t);
    assert Once(t) && Once(u);
    assert after == before + (Opened(u) - {l});
  }

  lemma {:induction false} TellsBinary(s: Source, args: seq<Arg>, before: set<nat>,
                                       middle: set<nat>, after: set<nat>, x: Tree, y: Tree, l: nat)
    requires L.Ordered(s.table) && 0 < l < |s.table| && l !in before && !IsUnary(s.table[l].op)
    requires s.table[l].op != L.Input && s.table[l].op != L.Load && s.table[l].op != L.Fatoi
    requires TellsOperand(s, args, before, middle, x, false, l)
    requires TellsOperand(s, args, middle, after, y, true, l)
    ensures Tells(s, args, before, after, T2(NodeData(s.table[l], l), x, y), l)
  {
    hide ShowsOperand;
    var u := T2(NodeData(s.table[l], l), x, y);
    assert Once(u);
    assert after == before + (Opened(u) - {l});
  }

  /** The tree of label `l` fills the arena from `p` on; what was before it is as it was. */
  ghost predicate Built(s: Source, args: seq<Arg>, was: seq<Node>, now: seq<Node>, p: nat,
                        before: set<nat>, after: set<nat>, l: nat)
    requires L.Ordered(s.table) && 0 < l < |s.table|
  {
    && p < |now| && p < |was| && (forall k :: 0 <= k < p ==> now[k] == was[k])
    && WellFormed(now, p, |now|) && |now| == p + Count(TreeOf(now, p, |now|))
    && Tells(s, args, before, after, TreeOf(now, p, |now|), l)
  }

  /** The same for an operand that was added as the child at `c` of the node `p`. */
  ghost predicate BuiltOperand(s: Source, args: seq<Arg>, was: seq<Node>, now: seq<Node>, p: nat,
                               before: set<nat>, after: set<nat>, second: bool, l: nat)
    requires L.Ordered(s.table) && 0 < l < |s.table| && p < |was|
  {
    var c := |was|;
    && c < |now| && WellFormed(now, c, |now|)
    && (forall j :: 0 <= j < c ==> now[j] == Linked(was, p, c)[j])
    && |now| == c + Count(TreeOf(now, c, |now|))
    && TellsOperand(s, args, before, after, TreeOf(now, c, |now|), second, l)
  }

  lemma {:induction false} FinishUnary(s: Source, args: seq<Arg>, was: seq<Node>, a: seq<Node>,
                                       p: nat, before: set<nat>, after: set<nat>, l: nat)
    requires L.Ordered(s.table) && 0 < l < |s.table| && l !in before && IsUnary(s.table[l].op)
    requires p + 1 == |was| && was[p] == EMPTY
    requires BuiltOperand(s, args, was, a, p, before, after, false, l)
    ensures p < |a| && Built(s, args, was, a[p := a[p].(data := NodeData(s.table[l], l))], p, before, after, l)
  {
    hide Tells, TellsOperand, NodeData;
    var c := |was|;
    LinkedIs(was, p, c);
    Arena.CopiedOne(a, p, c, NodeData(s.table[l], l));
    TellsUnary(s, args, before, after, TreeOf(a, c, |a|), l);
  }

  lemma {:induction false} FinishBinary(s: Source, early: seq<Arg>, args: seq<Arg>, was: seq<Node>, a: seq<Node>,
                                        b: seq<Node>, p: nat, before: set<nat>, middle: set<nat>, after: set<nat>, l: nat)
    requires L.Ordered(s.table) && 0 < l < |s.table| && l !in before && !IsUnary(s.table[l].op) && early <= args
    requires s.table[l].op != L.Input && s.table[l].op != L.Load && s.table[l].op != L.Fatoi
    requires p + 1 == |was| && was[p] == EMPTY && p < |a|
    requires BuiltOperand(s, early, was, a, p, before, middle, false, l)
    requires BuiltOperand(s, args, a, b, p, middle, after, true, l)
    ensures p < |b| && Built(s, args, was, b[p := b[p].(data := NodeData(s.table[l], l))], p, before, after, l)
  {
    hide Tells, NodeData, ShowsOperand, OperandCost;
    var c, d := |was|, |a|;
    LinkedIs(was, p, c);
    LinkedIs(a, p, d);
    Arena.CopiedTwo(a, b, p, c, d, NodeData(s.table[l], l));
    ShowsOperandGrow(s, early, args, TreeOf(a, c, d), false, l);
    TellsBinary(s, args, before, middle, after, TreeOf(a, c, d), TreeOf(b, d, |b|), l);
  }

  /** Room for the second operand. */
  lemma {:induction false} AfterFirst(s: Source, args: seq<Arg>, was: seq<Node>, a: seq<Node>, p: nat,
                                      before: set<nat>, after: set<nat>, l: nat)
    requires L.Ordered(s.table) && 0 < l < |s.table| && p + 1 == |was| && was[p] == EMPTY
    requires BuiltOperand(s, args, was, a, p, before, after, false, l)
    ensures p < |a| <= |was| + OperandCost(s, false, l) && a[p].child1 == 0
  {
    hide ShowsOperand, OperandCost;
    LinkedIs(was, p, |was|);
  }

  /** Whether a constant operand is acceptable. */
  predicate ConstantOk(s: Source, second: bool, l: nat)
    requires l < |s.table|
  {
    var info := s.table[l];
    if info.op == L.Fmemcmp then !second && l in s.contents
    else FixedOk(s.conc, info, l, if second then info.l1 else info.l2)
  }

  predicate OperandBuildable(s: Source, second: bool, l: nat)
    requires L.Ordered(s.table) && 0 < l < |s.table|
  {
    if OperandLabel(s, second, l) == 0 || IsFixed(s, second, l) then ConstantOk(s, second, l)
    else Buildable(s.table, s.conc, s.contents, OperandLabel(s, second, l))
  }

  ghost function OperandOffsets(s: Source, second: bool, l: nat): set<nat>
    requires L.Ordered(s.table) && 0 < l < |s.table|
  {
    if IsFixed(s, second, l) then {} else Offsets(s.table, s.conc, OperandLabel(s, second, l))
  }

  /** The recursive definitions at an operator. */
  lemma {:induction false} OperatorIs(s: Source, l: nat)
    requires L.Ordered(s.table) && 0 < l < |s.table| && s.table[l].op != L.Input && s.table[l].op != L.Load
    requires s.table[l].op == L.Fmemcmp || OpKind(s.table[l].op).Some?
    ensures
      var unary := IsUnary(s.table[l].op);
      && Cost(s.table, s.conc, l) == 1 + OperandCost(s, false, l) + (if unary then 0 else OperandCost(s, true, l))
      && (Buildable(s.table, s.conc, s.contents, l) <==> OperandBuildable(s, false, l) && (unary || OperandBuildable(s, true, l)))
      && Offsets(s.table, s.conc, l) == OperandOffsets(s, false, l) + OperandOffsets(s, true, l)
      && (unary ==> OperandOffsets(s, true, l) == {}) && s.table[l].op != L.Fatoi
      && OperandLabel(s, false, l) < l && OperandLabel(s, true, l) < l
  {
  }

  lemma {:induction false} IsEmpty()
    ensures EMPTY.child0 == 0 == EMPTY.child1
  {
  }

  lemma {:induction false} LinkedIs(a: seq<Node>, p: nat, c: nat)
    requires p < |a|
    ensures |Linked(a, p, c)| == |a| && forall k :: 0 <= k < |a| && k != p ==> Linked(a, p, c)[k] == a[k]
    ensures Linked(a, p, c)[p] == if a[p].child0 == 0 then a[p].(child0 := c) else a[p].(child1 := c)
  {
  }

  // ---- do_uta_rel ----

  class Builder {
    const src: Source
    const buffers: seq<seq<nat>>             // inputs_cache
    const ast: Arena
    var x: Arguments
    var visited: set<nat>

    ghost predicate Valid()
      reads this, ast
    {
      && L.Ordered(src.table) && ast.Valid() && ArgumentsOk(x)
      && forall v :: v in visited ==> 0 < v < |src.table| && Known(v)
    }

    /** A label that was expanded has arguments for its bytes and was buildable. */
    ghost predicate Known(v: nat)
      requires L.Ordered(src.table) && v < |src.table|
      reads this`x
    {
      Offsets(src.table, src.conc, v) <= x.localMap.Keys && Buildable(src.table, src.conc, src.contents, v)
    }

    constructor (src: Source, buffers: seq<seq<nat>>, ast: Arena)
      requires L.Ordered(src.table) && ast.Valid()
      ensures Valid() && visited == {} && x == NO_ARGUMENTS
      ensures this.src == src && this.buffers == buffers && this.ast == ast
    {
      this.src, this.buffers, this.ast := src, buffers, ast;
      x, visited := NO_ARGUMENTS, {};
    }

    /** The node at the end of the arena is the empty one to fill. */
    ghost predicate AtEnd(p: nat)
      reads ast
    {
      p == |ast.nodes| - 1 && ast.nodes[p] == EMPTY
    }

    /** Fills the node without children. */
    method Fill(p: nat, d: Data)
      requires ast.Valid() && AtEnd(p)
      modifies ast
      ensures ast.Valid() && |ast.nodes| == old(|ast.nodes|) && forall k :: 0 <= k < p ==> ast.nodes[k] == old(ast.nodes)[k]
      ensures WellFormed(ast.nodes, p, |ast.nodes|) && TreeOf(ast.nodes, p, |ast.nodes|) == T0(d)
    {
      ast.nodes := ast.nodes[p := ast.nodes[p].(data := d)];
    }

    /** Arguments for the bytes of a read. */
    method ReadBytes(id: nat, offset: nat, n: nat)
      requires Valid()
      modifies this`x
      ensures Valid() && x == MapFirst(old(x), if id < |buffers| then buffers[id] else [], offset, n, n)
      ensures x.localMap.Keys == old(x.localMap.Keys) + S.Run(offset, n) && old(x.args) <= x.args
    {
      hide ArgumentsOk, MapFirst, Offsets, Buildable;
      MapFirstGrows(x, if id < |buffers| then buffers[id] else [], offset, n, n);
      x := MapArg(x, if id < |buffers| then buffers[id] else [], offset, n);
    }

    /** Constant arguments. */
    method PushAll(values: seq<nat>)
      requires Valid()
      modifies this`x
      ensures Valid() && x.localMap == old(x.localMap)
      ensures old(x.args) <= x.args && Holds(x.args, old(|x.args|), values)
    {
      hide ArgumentsOk;
      var i := 0;
      while i < |values|
        invariant 0 <= i <= |values| && Valid() && x.localMap == old(x.localMap)
        invariant |x.args| == old(|x.args|) + i && old(x.args) <= x.args
        invariant forall j :: 0 <= j < i ==> x.args[old(|x.args|) + j] == Arg(false, values[j])
      {
        PushConstantOk(x, values[i]);
        x := PushConstant(x, values[i]);
        i := i + 1;
      }
    }

    /** Adds a child for an operand of label `l`: its expansion, or a constant. */
    method Operand(l: nat, p: nat, second: bool) returns (ok: bool)
      requires Valid() && 0 < l < |src.table| && OperandLabel(src, second, l) < l
      requires p < |ast.nodes| && ast.nodes[p].child1 == 0
      requires |ast.nodes| + OperandCost(src, second, l) <= ast.capacity
      modifies this`x, this`visited, ast
      ensures Valid() && old(visited) <= visited && old(x.localMap.Keys) <= x.localMap.Keys && old(x.args) <= x.args
      ensures ok <==> OperandBuildable(src, second, l)
      ensures ok ==> BuiltOperand(src, x.args, old(ast.nodes), ast.nodes, p, old(visited), visited, second, l)
      ensures ok ==> x.localMap.Keys == old(x.localMap.Keys) + OperandOffsets(src, second, l)
      decreases l, 0
    {
      hide TellsOperand, Tells, ArgumentsOk, Buildable, Offsets, Cost, HoldsConstant;
      CostPositive(src, second, l);
      ghost var before, args := visited, x.args;
      var k := OperandLabel(src, second, l);
      var c := ast.AddChild(p);
      if k == 0 || IsFixed(src, second, l) {
        if !ConstantOk(src, second, l) { return false; }
        Fill(c, Data(Constant, OperandBits(src, second, l), |x.args|, false, 0));
        PushAll(OperandValues(src, second, l));
        ConstantHeld(src, x.args, |args|, second, l);
        ConstantOf(src, x.args, before, TreeOf(ast.nodes, c, |ast.nodes|), second, l);
        return true;
      }
      ok := DoUta(k, c);
      if ok {
        OperandOf(src, x.args, before, visited, TreeOf(ast.nodes, c, |ast.nodes|), second, l);
        NowKnown(k);
        visited := visited + {k};
      }
    }

    lemma {:induction false} NowKnown(k: nat)
      requires L.Ordered(src.table) && 0 < k < |src.table| && Buildable(src.table, src.conc, src.contents, k)
      requires Offsets(src.table, src.conc, k) <= x.localMap.Keys
      ensures Known(k)
    {
    }

    /** do_uta_rel for label `l` in the empty node at the end.  It fails for labels it cannot express and for no other
        reason: there is always room for the next node. */
    method DoUta(l: nat, p: nat) returns (ok: bool)
      requires Valid() && l < |src.table| && AtEnd(p) && |ast.nodes| + Cost(src.table, src.conc, l) <= ast.capacity + 1
      modifies this`x, this`visited, ast
      ensures Valid() && old(visited) <= visited && old(x.localMap.Keys) <= x.localMap.Keys && old(x.args) <= x.args
      ensures ok <==> Buildable(src.table, src.conc, src.contents, l)
      ensures ok ==> Built(src, x.args, old(ast.nodes), ast.nodes, p, old(visited), visited, l)
      ensures ok ==> x.localMap.Keys == old(x.localMap.Keys) + Offsets(src.table, src.conc, l)
      decreases l, 2
    {
      hide Tells, ArgumentsOk, MapFirst, OpKind, IsExpressible;
      if l == 0 { return false; }
      var info := src.table[l];
      if l in visited {
        assert Known(l);
        Fill(p, Again(src.table, l).data);
        TellsLeaf(src, x.args, visited, l);
        return true;
      }
      if info.op == L.Input {
        Fill(p, Data(Read, 8, info.op1, false, l));
        ReadBytes(info.op2, info.op1, 1);
        TellsLeaf(src, x.args, visited, l);
        return true;
      }
      if info.op == L.Load {
        Fill(p, Data(Read, 8 * info.l2, src.table[info.l1].op1, false, l));
        ReadBytes(src.table[info.l1].op2, src.table[info.l1].op1, info.l2);
        TellsLeaf(src, x.args, visited, l);
        return true;
      }
      ExpressibleHasKind(info.op);
      if info.op != L.Fmemcmp && OpKind(info.op).None? { return false; }
      ok := Operators(l, p);
    }

    /** memcmp and the common operators. */
    method Operators(l: nat, p: nat) returns (ok: bool)
      requires Valid() && L.Ordered(src.table) && 0 < l < |src.table| && p == |ast.nodes| - 1 && ast.nodes[p] == EMPTY
      requires |ast.nodes| + Cost(src.table, src.conc, l) <= ast.capacity + 1
      requires l !in visited && src.table[l].op != L.Input && src.table[l].op != L.Load
      requires src.table[l].op == L.Fmemcmp || OpKind(src.table[l].op).Some?
      modifies this`x, this`visited, ast
      ensures Valid() && old(visited) <= visited && old(x.localMap.Keys) <= x.localMap.Keys && old(x.args) <= x.args
      ensures ok <==> Buildable(src.table, src.conc, src.contents, l)
      ensures ok ==> Built(src, x.args, old(ast.nodes), ast.nodes, p, old(visited), visited, l)
      ensures ok ==> x.localMap.Keys == old(x.localMap.Keys) + Offsets(src.table, src.conc, l)
      decreases l, 1
    {
      hide *;
      OperatorIs(src, l);
      assert ast.nodes[p].child0 == 0 == ast.nodes[p].child1 by { IsEmpty(); }
      ghost var before := visited;
      ok := Operand(l, p, false);
      if !ok { return; }
      ghost var a, middle, args := ast.nodes, visited, x.args;
      AfterFirst(src, args, old(ast.nodes), a, p, before, middle, l);
      if IsUnary(src.table[l].op) {
        FinishUnary(src, args, old(ast.nodes), a, p, before, middle, l);
        SetData(p, NodeData(src.table[l], l));
        return;
      }
      ok := Operand(l, p, true);
      if !ok { return; }
      FinishBinary(src, args, x.args, old(ast.nodes), a, ast.nodes, p, before, middle, visited, l);
      SetData(p, NodeData(src.table[l], l));
    }

    method SetData(p: nat, d: Data)
      requires Valid() && p < |ast.nodes|
      modifies ast
      ensures Valid() && ast.nodes == old(ast.nodes)[p := old(ast.nodes)[p].(data := d)]
    {
      ast.nodes := ast.nodes[p := ast.nodes[p].(data := d)];
    }
  }

  lemma {:induction false} CostPositive(s: Source, second: bool, l: nat)
    requires L.Ordered(s.table) && 0 < l < |s.table|
    ensures OperandCost(s, second, l) > 0
    ensures OperandLabel(s, second, l) == 0 ==> OperandOffsets(s, second, l) == {}
  {
  }

  lemma {:induction false} ConstantHeld(s: Source, args: seq<Arg>, at: nat, second: bool, l: nat)
    requires L.Ordered(s.table) && 0 < l < |s.table| && Holds(args, at, OperandValues(s, second, l))
    ensures HoldsConstant(s, args, T0(Data(Constant, OperandBits(s, second, l), at, false, 0)), second, l)
  {
  }

  /** Later bytes never disturb earlier arguments. */
  lemma {:induction false} MapFirstGrows(x: Arguments, buf: seq<nat>, offset: nat, length: nat, n: nat)
    ensures x.args <= MapFirst(x, buf, offset, length, n).args
  {
    if n > 0 { MapFirstGrows(x, buf, offset, length, n - 1); }
  }

  /** The value and the shape recorded for the bytes of a read: new bytes hold the input's value, the first one the
      length of the read. */
  lemma {:induction false} MapFirstValues(x: Arguments, buf: seq<nat>, offset: nat, length: nat, n: nat, k: nat)
    requires ArgumentsOk(x) && k < n && offset + n <= |buf|
    ensures
      var y := MapFirst(x, buf, offset, length, n);
      && offset + k in y.inputs && offset + k in y.shapes
      && y.inputs[offset + k] == (if offset + k in x.inputs then x.inputs[offset + k] else buf[offset + k])
      && y.shapes[offset + k] == if k == 0 then length else 0
  {
    hide ArgumentsOk;
    MapFirstOk(x, buf, offset, length, n - 1);
    KeysAgree(MapFirst(x, buf, offset, length, n - 1));
    if k < n - 1 {
      MapFirstValues(x, buf, offset, length, n - 1, k);
    } else {
      MapFirstKeeps(x, buf, offset, length, n - 1, offset + k);
    }
  }

  lemma {:induction false} KeysAgree(x: Arguments)
    requires ArgumentsOk(x)
    ensures x.inputs.Keys == x.localMap.Keys
  {
  }

  lemma {:induction false} MapFirstOk(x: Arguments, buf: seq<nat>, offset: nat, length: nat, n: nat)
    requires ArgumentsOk(x)
    ensures ArgumentsOk(MapFirst(x, buf, offset, length, n))
  {
    hide ArgumentsOk, MapOne;
    if n > 0 {
      MapFirstOk(x, buf, offset, length, n - 1);
      MapOneOk(MapFirst(x, buf, offset, length, n - 1), buf, offset + n - 1, if n == 1 then length else 0);
    }
  }

  lemma {:induction false} MapFirstKeeps(x: Arguments, buf: seq<nat>, offset: nat, length: nat, n: nat, o: nat)
    requires ArgumentsOk(x) && o >= offset + n
    ensures
      var y := MapFirst(x, buf, offset, length, n);
      (o in y.inputs <==> o in x.inputs) && (o in x.inputs ==> y.inputs[o] == x.inputs[o])
  {
    hide ArgumentsOk;
    if n > 0 {
      MapFirstKeeps(x, buf, offset, length, n - 1, o);
      MapFirstOk(x, buf, offset, length, n - 1);
    }
  }

  /** The constraint, a null pointer, or an exception that is not caught. */
  datatype Parsed = Parsed(builder: Builder) | Rejected | Thrown

  /** The sizes that stay positive as a signed 32-bit number. */
  const SIGNED_LIMIT: nat := 0x8000_0000

  /** The tree shows label `l`, expands no label twice and refers to no label that it does not expand; there are
      arguments for exactly the bytes of the label. */
  ghost predicate IsConstraint(s: Source, b: Builder, l: nat)
    reads b`x, b.ast
  {
    var (nodes, x) := (b.ast.nodes, b.x);
    && L.Ordered(s.table) && l < |s.table|
    && ArgumentsOk(x) && x.localMap.Keys == Offsets(s.table, s.conc, l)
    && WellFormed(nodes, 0, |nodes|)
    && var t := TreeOf(nodes, 0, |nodes|);
       && Shows(s, x.args, t, l) && |nodes| == Count(t) && Once(t) && Referred(t) <= Opened(t)
  }

  /** parse_constraint: with a cached size that is enough, a constraint is built for every comparison that can be
      expressed.  The size is passed on as a signed number, so that a larger one asks
      for too much memory. */
  method ParseConstraint(c: Config, contents: map<nat, seq<nat>>, buffers: seq<seq<nat>>, l: nat) returns (r: Parsed)
    requires L.Ordered(c.table) && l < |c.table|
    requires l < |c.size| ==> Cost(c.table, c.concretize, l) <= c.size[l] < WRAP32
    ensures
      var known := (c.table[l].op.ICmp? || c.table[l].op == L.Fmemcmp) && l < |c.size|;
      && (r.Parsed? <==> known && c.size[l] < SIGNED_LIMIT && Buildable(c.table, c.concretize, contents, l))
      && (r.Thrown? <==> known && SIGNED_LIMIT <= c.size[l] < WRAP32 - 1)
    ensures r.Parsed? ==> IsConstraint(Source(c.table, c.concretize, contents), r.builder, l)
    ensures r.Parsed? ==> |r.builder.ast.nodes| <= c.size[l]
  {
    if !L.IsCompare(c.table[l].op) || l >= |c.size| || c.size[l] == 0 { return Rejected; }
    if c.size[l] >= SIGNED_LIMIT {
      // one less than 2^32 is -1, which asks for no memory beyond the root, and a comparison needs more
      return if c.size[l] < WRAP32 - 1 then Thrown else Rejected;
    }
    var ast := new Arena(c.size[l]);
    var b := new Builder(Source(c.table, c.concretize, contents), buffers, ast);
    var ok := b.DoUta(l, 0);
    if !ok { return Rejected; }
    return Parsed(b);
  }
}
