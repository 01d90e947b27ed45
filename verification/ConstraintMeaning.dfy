/** What the tree of a constraint computes.  A compiled constraint evaluates every expanded label once, reads references
    from what it has evaluated, and takes input bytes and constants from its arguments. */
module ConstraintMeaning {
  import opened Base
  import L = Labels
  import opened Ast
  import S = ScanLabels
  import opened AstSizes
  import opened Constraints
  import R = FindRoots

  /** A value and its width. */
  type Val = (nat, nat)

  /** What an operator makes of its operands' values; it does not know the label. */
  type Meaning = (Data, Val, Val) -> Val

  function Bare(d: Data): Data {
    d.(node := 0)
  }

  /** `n` bytes from `offset` on, the first one lowest. */
  function ByteSum(read: nat -> nat, offset: nat, n: nat): nat {
    if n == 0 then 0 else ByteSum(read, offset, n - 1) + read(offset + n - 1) % 256 * Pow2(8 * (n - 1))
  }

  /** `n` pieces of 8 bytes, the first one lowest. */
  function PieceSum(read: nat -> nat, at: nat, n: nat): nat {
    if n == 0 then 0 else PieceSum(read, at, n - 1) + read(at + n - 1) * Pow2(64 * (n - 1))
  }

  // ---- by the tree ----

  function ByteOf(x: Arguments, fill: nat -> nat, o: nat): nat {
    if o in x.localMap then fill(x.localMap[o]) else 0
  }

  /** The value of a tree when argument `i` is `fill(i)` and label `k` has been evaluated to `env(k)`.  A constant buffer of
      memcmp is `wide`. */
  function TreeVal(op: Meaning, x: Arguments, fill: nat -> nat, env: nat -> Val, t: Tree, wide: bool): Val {
    match t
    case T0(d) =>
      if d.kind == Bool then env(d.node)
      else if d.kind == Constant then (if wide then PieceSum(fill, d.index, (d.bits / 8 + 7) / 8) else fill(d.index), d.bits)
      else (ByteSum((o: nat) => ByteOf(x, fill, o), d.index, d.bits / 8), d.bits)
    case T1(d, u) => op(Bare(d), TreeVal(op, x, fill, env, u, false), (0, 0))
    case T2(d, u, v) =>
      op(Bare(d), TreeVal(op, x, fill, env, u, d.kind == Memcmp), TreeVal(op, x, fill, env, v, false))
  }

  /** `env` holds the values that the expanded labels of the tree evaluate to. */
  ghost predicate Consistent(op: Meaning, x: Arguments, fill: nat -> nat, env: nat -> Val, t: Tree) {
    match t
    case T0(d) => d.kind == Bool || d.kind == Constant || env(d.node) == TreeVal(op, x, fill, env, t, false)
    case T1(d, u) => env(d.node) == TreeVal(op, x, fill, env, t, false) && Consistent(op, x, fill, env, u)
    case T2(d, u, v) =>
      && env(d.node) == TreeVal(op, x, fill, env, t, false)
      && Consistent(op, x, fill, env, u) && Consistent(op, x, fill, env, v)
  }

  /** Arguments filled from an input. */
  ghost predicate Filled(x: Arguments, fill: nat -> nat, input: nat -> nat) {
    && (forall o :: o in x.localMap ==> fill(x.localMap[o]) == input(o))
    && forall i :: 0 <= i < |x.args| && !x.args[i].symbolic ==> fill(i) == x.args[i].value
  }

  // ---- by the labels ----

  /** The value of label `l` by recursion over the labels; concretized operands have their recorded values. */
  function LabelVal(s: Source, op: Meaning, input: nat -> nat, l: nat): Val
    requires L.Ordered(s.table) && l < |s.table|
    decreases l, 1
  {
    var info := s.table[l];
    if l == 0 then (0, 0)
    else if info.op == L.Input then (ByteSum(input, info.op1, 1), 8)
    else if info.op == L.Load then (ByteSum(input, s.table[info.l1].op1, info.l2), 8 * info.l2)
    else
      op(Bare(NodeData(info, l)), OperandVal(s, op, input, false, l),
         if IsUnary(info.op) then (0, 0) else OperandVal(s, op, input, true, l))
  }

  function OperandVal(s: Source, op: Meaning, input: nat -> nat, second: bool, l: nat): Val
    requires L.Ordered(s.table) && 0 < l < |s.table|
    decreases l, 0
  {
    var k := OperandLabel(s, second, l);
    if k != 0 && !IsFixed(s, second, l) then LabelVal(s, op, input, k)
    else (ConstantVal(s, second, l), OperandBits(s, second, l))
  }

  function PieceAt(values: seq<nat>): nat -> nat {
    (i: nat) => if i < |values| then values[i] else 0
  }

  /** The recorded value of a constant operand. */
  function ConstantVal(s: Source, second: bool, l: nat): nat
    requires l < |s.table|
  {
    var values := OperandValues(s, second, l);
    if !second && s.table[l].op == L.Fmemcmp then
      PieceSum(PieceAt(values), 0, (s.table[l].size + 7) / 8)
    else if values != [] then values[0] else 0
  }

  // ---- both agree ----

  lemma {:induction false} SameBytes(f: nat -> nat, g: nat -> nat, offset: nat, n: nat)
    requires forall o :: o in S.Run(offset, n) ==> f(o) == g(o)
    ensures ByteSum(f, offset, n) == ByteSum(g, offset, n)
  {
    if n > 0 {
      assert offset + n - 1 in S.Run(offset, n);
      assert forall o :: o in S.Run(offset, n - 1) ==> o in S.Run(offset, n);
      SameBytes(f, g, offset, n - 1);
    }
    hide Pow2;
  }

  lemma {:induction false} SamePieces(f: nat -> nat, at: nat, g: nat -> nat, n: nat)
    requires forall j :: 0 <= j < n ==> f(at + j) == g(j)
    ensures PieceSum(f, at, n) == PieceSum(g, 0, n)
  {
    if n > 0 {
      assert f(at + (n - 1)) == g(n - 1);
      SamePieces(f, at, g, n - 1);
    }
    hide Pow2;
  }

  /** A constant leaf reads the recorded value. */
  lemma {:induction false} ConstantAgrees(s: Source, op: Meaning, x: Arguments, fill: nat -> nat, input: nat -> nat,
                                          env: nat -> Val, t: Tree, second: bool, l: nat)
    requires L.Ordered(s.table) && 0 < l < |s.table| && HoldsConstant(s, x.args, t, second, l) && Filled(x, fill, input)
    requires !second && s.table[l].op == L.Fmemcmp ==> l in s.contents
    ensures TreeVal(op, x, fill, env, t, !second && s.table[l].op == L.Fmemcmp)
      == (ConstantVal(s, second, l), OperandBits(s, second, l))
  {
    hide Filled, OperandValues, OperandBits, PieceSum, Holds;
    var values, at := OperandValues(s, second, l), t.data.index;
    FilledHolds(x, fill, input, at, values);
    ConstantShape(s, second, l);
    if !second && s.table[l].op == L.Fmemcmp {
      SamePieces(fill, at, PieceAt(values), |values|);
    } else {
      assert fill(at + 0) == values[0];
    }
  }

  lemma {:induction false} FilledHolds(x: Arguments, fill: nat -> nat, input: nat -> nat, at: nat, values: seq<nat>)
    requires Filled(x, fill, input) && Holds(x.args, at, values)
    ensures forall j :: 0 <= j < |values| ==> fill(at + j) == values[j]
  {
  }

  lemma {:induction false} ConstantShape(s: Source, second: bool, l: nat)
    requires L.Ordered(s.table) && 0 < l < |s.table| && (!second && s.table[l].op == L.Fmemcmp ==> l in s.contents)
    ensures
      var values := OperandValues(s, second, l);
      if !second && s.table[l].op == L.Fmemcmp then
        |values| == (s.table[l].size + 7) / 8 && OperandBits(s, second, l) / 8 == s.table[l].size
      else |values| == 1
  {
    hide ChunkValue;
  }

  lemma {:induction false} ReadAgrees(x: Arguments, fill: nat -> nat, input: nat -> nat, offset: nat, n: nat)
    requires Filled(x, fill, input) && S.Run(offset, n) <= x.localMap.Keys
    ensures ByteSum((o: nat) => ByteOf(x, fill, o), offset, n) == ByteSum(input, offset, n)
  {
    forall o | o in S.Run(offset, n) ensures ByteOf(x, fill, o) == input(o) { assert o in x.localMap; }
    SameBytes((o: nat) => ByteOf(x, fill, o), input, offset, n);
  }

  /** What is given: filled arguments for the bytes of a buildable label, and the values of the labels below `bound` in
      `known`. */
  ghost predicate Known(s: Source, op: Meaning, input: nat -> nat, env: nat -> Val, known: set<nat>, bound: nat)
    requires L.Ordered(s.table)
  {
    forall m :: m in known && m < bound && m < |s.table| ==> env(m) == LabelVal(s, op, input, m)
  }

  ghost predicate Fits(s: Source, x: Arguments, l: nat)
    requires L.Ordered(s.table) && l < |s.table|
  {
    Buildable(s.table, s.conc, s.contents, l) && Offsets(s.table, s.conc, l) <= x.localMap.Keys
  }

  lemma {:induction false} OperandFits(s: Source, x: Arguments, l: nat, second: bool)
    requires L.Ordered(s.table) && 0 < l < |s.table| && Fits(s, x, l) && s.table[l].op != L.Input && s.table[l].op != L.Load
    requires second ==> !IsUnary(s.table[l].op)
    ensures
      var k := OperandLabel(s, second, l);
      && k < l && (k != 0 && !IsFixed(s, second, l) ==> Fits(s, x, k))
      && (k == 0 || IsFixed(s, second, l) ==> ConstantOk(s, second, l))
      && (!second && s.table[l].op == L.Fmemcmp && k == 0 ==> l in s.contents)
  {
    assert s.table[l].op == L.Fmemcmp || OpKind(s.table[l].op).Some?;
    OperatorIs(s, l);
    hide Buildable, Offsets, Cost;
  }

  /** A tree that shows a label evaluates to the label's value, given the values of the labels it refers to. */
  lemma {:induction false} ShownAgrees(s: Source, op: Meaning, x: Arguments, fill: nat -> nat, input: nat -> nat,
                                       env: nat -> Val, known: set<nat>, t: Tree, l: nat)
    requires L.Ordered(s.table) && 0 < l < |s.table| && Shows(s, x.args, t, l) && Fits(s, x, l) && Filled(x, fill, input)
    requires Referred(t) <= known && Known(s, op, input, env, known, if t == Again(s.table, l) then l + 1 else l)
    ensures TreeVal(op, x, fill, env, t, false) == LabelVal(s, op, input, l)
    decreases l, 1
  {
    hide Fits, Filled, NodeData, ByteSum, PieceSum, Known, HoldsConstant, OperandVal;
    var info := s.table[l];
    if t == Again(s.table, l) {
      AgainAgrees(s, op, input, env, known, l);
    } else if info.op == L.Input || info.op == L.Load {
      LeafAgrees(s, op, x, fill, input, env, t, l);
    } else if IsUnary(info.op) {
      OperandAgrees(s, op, x, fill, input, env, known, t.sub, false, l);
    } else {
      OperandAgrees(s, op, x, fill, input, env, known, t.left, false, l);
      OperandAgrees(s, op, x, fill, input, env, known, t.right, true, l);
      NodeIsMemcmp(info, l);
    }
  }

  lemma {:induction false} AgainAgrees(s: Source, op: Meaning, input: nat -> nat, env: nat -> Val, known: set<nat>, l: nat)
    requires L.Ordered(s.table) && l < |s.table| && l in known && Known(s, op, input, env, known, l + 1)
    ensures env(l) == LabelVal(s, op, input, l)
  {
    hide LabelVal;
  }

  lemma {:induction false} ReadFits(s: Source, x: Arguments, l: nat)
    requires L.Ordered(s.table) && 0 < l < |s.table| && Fits(s, x, l)
    ensures s.table[l].op == L.Input ==> S.Run(s.table[l].op1, 1) <= x.localMap.Keys
    ensures s.table[l].op == L.Load ==> S.Run(s.table[s.table[l].l1].op1, s.table[l].l2) <= x.localMap.Keys
  {
    hide Buildable, S.Run;
  }

  /** A read of input bytes. */
  lemma {:induction false} LeafAgrees(s: Source, op: Meaning, x: Arguments, fill: nat -> nat, input: nat -> nat,
                                      env: nat -> Val, t: Tree, l: nat)
    requires L.Ordered(s.table) && 0 < l < |s.table| && Shows(s, x.args, t, l) && Fits(s, x, l) && Filled(x, fill, input)
    requires t != Again(s.table, l) && (s.table[l].op == L.Input || s.table[l].op == L.Load)
    ensures TreeVal(op, x, fill, env, t, false) == LabelVal(s, op, input, l)
  {
    hide ByteSum, Filled, Fits, OperandVal, ShowsOperand, PieceSum, NodeData, S.Run, ByteOf;
    var info := s.table[l];
    ReadFits(s, x, l);
    if info.op == L.Input {
      ReadAgrees(x, fill, input, info.op1, 1);
    } else {
      ReadAgrees(x, fill, input, s.table[info.l1].op1, info.l2);
    }
  }

  lemma {:induction false} NodeIsMemcmp(info: L.LabelInfo, l: nat)
    ensures NodeData(info, l).kind == Memcmp <==> info.op == L.Fmemcmp
  {
  }

  lemma {:induction false} OperandAgrees(s: Source, op: Meaning, x: Arguments, fill: nat -> nat, input: nat -> nat,
                                         env: nat -> Val, known: set<nat>, t: Tree, second: bool, l: nat)
    requires L.Ordered(s.table) && 0 < l < |s.table| && ShowsOperand(s, x.args, t, second, l) && Fits(s, x, l)
    requires s.table[l].op != L.Input && s.table[l].op != L.Load && (second ==> !IsUnary(s.table[l].op))
    requires Filled(x, fill, input) && Referred(t) <= known && Known(s, op, input, env, known, l)
    ensures TreeVal(op, x, fill, env, t, !second && s.table[l].op == L.Fmemcmp) == OperandVal(s, op, input, second, l)
    decreases l, 0
  {
    var k := OperandLabel(s, second, l);
    OperandFits(s, x, l, second);
    if k == 0 || IsFixed(s, second, l) {
      ConstantAgrees(s, op, x, fill, input, env, t, second, l);
    } else {
      ShownAgrees(s, op, x, fill, input, env, known, t, k);
      NotConstant(s, op, x, fill, env, t, k);
    }
  }

  /** Only constants look at the width flag. */
  lemma {:induction false} NotConstant(s: Source, op: Meaning, x: Arguments, fill: nat -> nat, env: nat -> Val, t: Tree, l: nat)
    requires L.Ordered(s.table) && 0 < l < |s.table| && Shows(s, x.args, t, l)
    ensures TreeVal(op, x, fill, env, t, true) == TreeVal(op, x, fill, env, t, false)
  {
  }

  /** Expanded labels are at most the label shown, which is on top. */
  lemma {:induction false} OpenedBelow(s: Source, args: seq<Arg>, t: Tree, l: nat)
    requires L.Ordered(s.table) && 0 < l < |s.table| && Shows(s, args, t, l)
    ensures forall k :: k in Opened(t) ==> 0 < k <= l
    ensures t != Again(s.table, l) ==> t.data.node == l && l in Opened(t)
    decreases l, 1
  {
    var info := s.table[l];
    NodeIs(info, l);
    hide NodeData;
    if t != Again(s.table, l) && info.op != L.Input && info.op != L.Load {
      if IsUnary(info.op) {
        OperandBelow(s, args, t.sub, false, l);
      } else {
        OperandBelow(s, args, t.left, false, l);
        OperandBelow(s, args, t.right, true, l);
      }
    }
  }

  lemma {:induction false} NodeIs(info: L.LabelInfo, l: nat)
    ensures NodeData(info, l).node == l
  {
  }

  lemma {:induction false} OperandBelow(s: Source, args: seq<Arg>, t: Tree, second: bool, l: nat)
    requires L.Ordered(s.table) && 0 < l < |s.table| && ShowsOperand(s, args, t, second, l)
    ensures forall k :: k in Opened(t) ==> 0 < k < l
    decreases l, 0
  {
    var k := OperandLabel(s, second, l);
    if k != 0 && !IsFixed(s, second, l) { OpenedBelow(s, args, t, k); }
  }

  /** An expanded label evaluates to its value once the labels below it do. */
  lemma {:induction false} OpenedAgrees(s: Source, op: Meaning, x: Arguments, fill: nat -> nat, input: nat -> nat,
                                        env: nat -> Val, known: set<nat>, t: Tree, l: nat, k: nat)
    requires L.Ordered(s.table) && 0 < l < |s.table| && Shows(s, x.args, t, l) && Fits(s, x, l) && Filled(x, fill, input)
    requires Referred(t) <= known && Consistent(op, x, fill, env, t)
    requires k in Opened(t) && k < |s.table| && Known(s, op, input, env, known, k)
    ensures env(k) == LabelVal(s, op, input, k)
    decreases l, 1
  {
    OpenedBelow(s, x.args, t, l);
    if k == l {
      ShownAgrees(s, op, x, fill, input, env, known, t, l);
    } else if IsUnary(s.table[l].op) {
      OpenedOperand(s, op, x, fill, input, env, known, t.sub, false, l, k);
    } else if k in Opened(t.left) {
      OpenedOperand(s, op, x, fill, input, env, known, t.left, false, l, k);
    } else {
      OpenedOperand(s, op, x, fill, input, env, known, t.right, true, l, k);
    }
    hide Filled, Fits, Known, TreeVal, LabelVal, NodeData;
  }

  lemma {:induction false} OpenedOperand(s: Source, op: Meaning, x: Arguments, fill: nat -> nat, input: nat -> nat,
                                         env: nat -> Val, known: set<nat>, t: Tree, second: bool, l: nat, k: nat)
    requires L.Ordered(s.table) && 0 < l < |s.table| && ShowsOperand(s, x.args, t, second, l) && Fits(s, x, l)
    requires s.table[l].op != L.Input && s.table[l].op != L.Load && (second ==> !IsUnary(s.table[l].op))
    requires Filled(x, fill, input) && Referred(t) <= known && Consistent(op, x, fill, env, t)
    requires k in Opened(t) && k < |s.table| && Known(s, op, input, env, known, k)
    ensures env(k) == LabelVal(s, op, input, k)
    decreases l, 0
  {
    var m := OperandLabel(s, second, l);
    OperandFits(s, x, l, second);
    if m != 0 && !IsFixed(s, second, l) { OpenedAgrees(s, op, x, fill, input, env, known, t, m, k); }
  }

  /** All labels up to a bound, by induction. */
  lemma {:induction false} AllKnown(s: Source, op: Meaning, x: Arguments, fill: nat -> nat, input: nat -> nat,
                                    env: nat -> Val, t: Tree, l: nat, bound: nat)
    requires L.Ordered(s.table) && 0 < l < |s.table| && Shows(s, x.args, t, l) && Fits(s, x, l) && Filled(x, fill, input)
    requires Referred(t) <= Opened(t) && Consistent(op, x, fill, env, t)
    ensures Known(s, op, input, env, Opened(t), bound)
    decreases bound
  {
    hide *;
    if bound > 0 {
      AllKnown(s, op, x, fill, input, env, t, l, bound - 1);
      var k := bound - 1;
      if k in Opened(t) && k < |s.table| { OpenedAgrees(s, op, x, fill, input, env, Opened(t), t, l, k); }
      KnownNext(s, op, input, env, Opened(t), k);
    } else {
      KnownNone(s, op, input, env, Opened(t));
    }
  }

  lemma {:induction false} KnownNone(s: Source, op: Meaning, input: nat -> nat, env: nat -> Val, known: set<nat>)
    requires L.Ordered(s.table)
    ensures Known(s, op, input, env, known, 0)
  {
  }

  lemma {:induction false} KnownNext(s: Source, op: Meaning, input: nat -> nat, env: nat -> Val, known: set<nat>, k: nat)
    requires L.Ordered(s.table) && Known(s, op, input, env, known, k)
    requires k in known && k < |s.table| ==> env(k) == LabelVal(s, op, input, k)
    ensures Known(s, op, input, env, known, k + 1)
  {
    hide LabelVal;
  }

  /** The tree of a constraint evaluates to the value of its label, and so does every label that it expands, whatever the
      operators mean: sharing and the mapping of arguments change nothing. */
  lemma {:induction false} TreeIsRight(s: Source, op: Meaning, x: Arguments, fill: nat -> nat, input: nat -> nat,
                                       env: nat -> Val, t: Tree, l: nat)
    requires L.Ordered(s.table) && 0 < l < |s.table| && Shows(s, x.args, t, l) && Fits(s, x, l) && Filled(x, fill, input)
    requires Referred(t) <= Opened(t) && Consistent(op, x, fill, env, t)
    ensures TreeVal(op, x, fill, env, t, false) == LabelVal(s, op, input, l)
    ensures forall k :: k in Opened(t) ==> k < |s.table| && env(k) == LabelVal(s, op, input, k)
  {
    hide Shows, Fits, Filled, Consistent, LabelVal, TreeVal;
    AllKnown(s, op, x, fill, input, env, t, l, |s.table|);
    AllKnown(s, op, x, fill, input, env, t, l, if t == Again(s.table, l) then l + 1 else l);
    OpenedBelow(s, x.args, t, l);
    ShownAgrees(s, op, x, fill, input, env, Opened(t), t, l);
  }

  function LabelEnv(s: Source, op: Meaning, input: nat -> nat): nat -> Val
    requires L.Ordered(s.table)
  {
    (k: nat) => if k < |s.table| then LabelVal(s, op, input, k) else (0, 0)
  }

  function Valuation(s: Source, op: Meaning, input: nat -> nat): nat -> nat
    requires L.Ordered(s.table)
  {
    (k: nat) => if k < |s.table| then LabelVal(s, op, input, k).0 else 0
  }

  /** There is such an evaluation: the one by the labels. */
  lemma {:induction false} LabelsAreConsistent(s: Source, op: Meaning, x: Arguments, fill: nat -> nat, input: nat -> nat,
                                               t: Tree, l: nat)
    requires L.Ordered(s.table) && 0 < l < |s.table| && Shows(s, x.args, t, l) && Fits(s, x, l) && Filled(x, fill, input)
    ensures Consistent(op, x, fill, LabelEnv(s, op, input), t)
    decreases l, 1
  {
    var env, info := LabelEnv(s, op, input), s.table[l];
    hide Filled, Fits, LabelVal, NodeData;
    if t != Again(s.table, l) {
      OpenedBelow(s, x.args, t, l);
      ShownAgrees(s, op, x, fill, input, env, Referred(t), t, l);
      if info.op == L.Input || info.op == L.Load {
      } else if IsUnary(info.op) {
        OperandIsConsistent(s, op, x, fill, input, t.sub, false, l);
      } else {
        OperandIsConsistent(s, op, x, fill, input, t.left, false, l);
        OperandIsConsistent(s, op, x, fill, input, t.right, true, l);
      }
    }
  }

  lemma {:induction false} OperandIsConsistent(s: Source, op: Meaning, x: Arguments, fill: nat -> nat, input: nat -> nat,
                                               t: Tree, second: bool, l: nat)
    requires L.Ordered(s.table) && 0 < l < |s.table| && ShowsOperand(s, x.args, t, second, l) && Fits(s, x, l)
    requires s.table[l].op != L.Input && s.table[l].op != L.Load && (second ==> !IsUnary(s.table[l].op))
    requires Filled(x, fill, input)
    ensures Consistent(op, x, fill, LabelEnv(s, op, input), t)
    decreases l, 0
  {
    var k := OperandLabel(s, second, l);
    OperandFits(s, x, l, second);
    if k != 0 && !IsFixed(s, second, l) { LabelsAreConsistent(s, op, x, fill, input, t, k); }
  }

  /** And arguments can be filled from any input. */
  lemma {:induction false} CanBeFilled(x: Arguments, input: nat -> nat) returns (fill: nat -> nat)
    requires ArgumentsOk(x)
    ensures Filled(x, fill, input)
  {
    forall o, p | o in x.localMap && p in x.localMap && x.localMap[o] == x.localMap[p] ensures o == p {
      assert StandsFor(x, x.localMap[o], o) && StandsFor(x, x.localMap[o], p);
    }
    var offset: map<nat, nat> := map o | o in x.localMap :: x.localMap[o] := o;
    fill := (i: nat) => if i in offset then input(offset[i]) else if i < |x.args| then x.args[i].value else 0;
    forall o | o in x.localMap ensures fill(x.localMap[o]) == input(o) {
      var i := x.localMap[o];
      assert i in offset && StandsFor(x, i, o) && StandsFor(x, i, offset[i]);
    }
    forall i | 0 <= i < |x.args| && !x.args[i].symbolic ensures fill(i) == x.args[i].value {
      assert forall o :: o in x.localMap ==> x.args[x.localMap[o]].symbolic;
      assert i !in offset;
    }
  }

  /** What the search compares for a literal: the operands of the constraint's tree have the values that the formula's
      leaf speaks about, or the recorded ones where they are concretized. */
  lemma {:induction false} OperandsOfLiteral(s: Source, op: Meaning, x: Arguments, fill: nat -> nat, input: nat -> nat,
                                             env: nat -> Val, t: Tree, l: nat)
    requires L.Ordered(s.table) && 0 < l < |s.table| && s.table[l].op.ICmp?
    requires Shows(s, x.args, t, l) && Fits(s, x, l) && Filled(x, fill, input)
    requires Referred(t) <= Opened(t) && Consistent(op, x, fill, env, t)
    ensures
      var v := Valuation(s, op, input);
      && t.T2? && t.data.kind == R.KindOf(s.table[l].op.pred) && t.data.node == l
      && TreeVal(op, x, fill, env, t.left, false).0
         == (if LeftFixed(s.conc, l) then s.table[l].op1 else R.Lhs(s.table, v, l))
      && TreeVal(op, x, fill, env, t.right, false).0
         == if RightFixed(s.conc, l) then s.table[l].op2 else R.Rhs(s.table, v, l)
  {
    hide *;
    NotAgain(s, t, l);
    LiteralShape(s, x.args, t, l);
    AllKnown(s, op, x, fill, input, env, t, l, l);
    OperandAgrees(s, op, x, fill, input, env, Opened(t), t.left, false, l);
    OperandAgrees(s, op, x, fill, input, env, Opened(t), t.right, true, l);
    LiteralOperands(s, op, input, l);
  }

  lemma {:induction false} NotAgain(s: Source, t: Tree, l: nat)
    requires l < |s.table| && Referred(t) <= Opened(t)
    ensures t != Again(s.table, l)
  {
    var a := Again(s.table, l);
    assert l in Referred(a) && Opened(a) == {};
  }

  lemma {:induction false} LiteralShape(s: Source, args: seq<Arg>, t: Tree, l: nat)
    requires L.Ordered(s.table) && 0 < l < |s.table| && s.table[l].op.ICmp? && Shows(s, args, t, l) && t != Again(s.table, l)
    ensures t.T2? && t.data.kind == R.KindOf(s.table[l].op.pred) && t.data.node == l && !IsUnary(s.table[l].op)
    ensures ShowsOperand(s, args, t.left, false, l) && ShowsOperand(s, args, t.right, true, l)
    ensures Referred(t.left) <= Referred(t) && Referred(t.right) <= Referred(t)
  {
    hide ShowsOperand;
  }

  lemma {:induction false} LiteralOperands(s: Source, op: Meaning, input: nat -> nat, l: nat)
    requires L.Ordered(s.table) && 0 < l < |s.table| && s.table[l].op.ICmp?
    ensures
      var v := Valuation(s, op, input);
      && OperandVal(s, op, input, false, l).0 == (if LeftFixed(s.conc, l) then s.table[l].op1 else R.Lhs(s.table, v, l))
      && OperandVal(s, op, input, true, l).0 == if RightFixed(s.conc, l) then s.table[l].op2 else R.Rhs(s.table, v, l)
  {
    hide LabelVal, OperandBits;
    var info := s.table[l];
    assert info.op != L.Fmemcmp && !IsUnary(info.op);
    assert OperandValues(s, false, l) == [info.op1] && OperandValues(s, true, l) == [info.op2];
    assert IsFixed(s, false, l) == LeftFixed(s.conc, l) && IsFixed(s, true, l) == RightFixed(s.conc, l);
    assert info.l1 < |s.table| && info.l2 < |s.table|;
    assert R.Lhs(s.table, Valuation(s, op, input), l)
      == if info.l1 == 0 then info.op1 else LabelVal(s, op, input, info.l1).0;
    assert R.Rhs(s.table, Valuation(s, op, input), l)
      == if info.l2 == 0 then info.op2 else LabelVal(s, op, input, info.l2).0;
  }
}
