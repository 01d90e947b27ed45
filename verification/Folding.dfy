/** parsers/rgd-parser.cpp, find_roots: what becomes of operands that were folded to constants.  As set_boolvalue keeps
    the complement (include/ast.h), a folded operand is read back inverted. */
module Folding {
  import opened Base
  import L = Labels
  import opened Ast
  import opened Formula
  import opened FindRoots

  predicate Folded(t: Tree) {
    t.data.kind == Bool
  }

  /** The tree stands for a one-bit value: a constant as made for it, whatever hangs below, or a formula with its truth.
      A negation has one operand. */
  ghost predicate Truthful(t: Tree, env: Env, value: nat) {
    && value <= 1 && t.data.bits == 1 && (t.data.kind == LNot ==> t.T1?)
    && if Folded(t) then t.data == Constantly(value != 0).data else Eval(t, env) <==> value != 0
  }

  ghost predicate OptTruthful(t: Option<Tree>, env: Env, value: nat) {
    t.Some? ==> Truthful(t.value, env, value)
  }

  /** The operand that decides the result is the other one, as long as exactly one is folded. */
  predicate JunctionRight(unit: bool, left: bool, right: bool, x: nat, y: nat) {
    if left && right then x != y
    else if left then y == B(!unit)
    else if right then x == B(!unit)
    else true
  }

  /** When a connective over truthful operands is handled rightly; `x` and `y` are the operands' values. */
  predicate RightNode(info: L.LabelInfo, left: Option<Tree>, right: Option<Tree>, x: nat, y: nat) {
    var lf, rf := left.Some? && Folded(left.value), right.Some? && Folded(right.value);
    match info.op
    case Not => !rf
    case And => info.l1 == 0 || JunctionRight(true, lf, rf, x, y)
    case Or => info.l1 == 0 || JunctionRight(false, lf, rf, x, y)
    case Xor => if info.l1 == 0 then !rf else lf == rf
    case _ => true
  }

  /** A connective of one bit as the runtime records it: a negation has its operand on the right, and a constant operand
      is a bit. */
  predicate IsConnective(info: L.LabelInfo) {
    && (info.op == L.Not || info.op == L.And || info.op == L.Or || info.op == L.Xor)
    && (info.op == L.Not ==> info.l1 == 0) && (info.l1 == 0 ==> info.op1 <= 1)
  }

  /** LAnd and LOr with symbolic labels on both sides. */
  lemma {:induction false} JunctionIsExact(info: L.LabelInfo, kind: Kind, unit: bool, left: Tree, right: Tree, env: Env,
                                           x: nat, y: nat)
    requires info.size == 1 && info.l1 != 0 && kind == (if unit then LAnd else LOr)
    requires Truthful(left, env, x) && Truthful(right, env, y)
    ensures
      var r := Apply(DecideJunction(info, kind, unit, Some(left.data), Some(right.data)), Some(left), Some(right));
      var value := B(if unit then x != 0 && y != 0 else x != 0 || y != 0);
      r.Some? && (Truthful(r.value, env, value) <==> JunctionRight(unit, Folded(left), Folded(right), x, y))
  {
  }

  lemma {:induction false} XorIsExact(info: L.LabelInfo, left: Tree, right: Tree, env: Env, x: nat, y: nat)
    requires info.size == 1 && info.l1 != 0
    requires Truthful(left, env, x) && Truthful(right, env, y)
    ensures
      var r := Apply(DecideXor(info, Some(left.data), Some(right.data)), Some(left), Some(right));
      r.Some? && (Truthful(r.value, env, B((x != 0) != (y != 0))) <==> Folded(left) == Folded(right))
  {
  }

  /** With a constant on the left, or for a negation, only the right operand counts. */
  lemma {:induction false} UnaryIsExact(info: L.LabelInfo, right: Tree, env: Env, y: nat)
    requires info.size == 1 && info.l1 == 0 && info.op1 <= 1 && Truthful(right, env, y)
    ensures
      var d := Some(right.data);
      var not := Apply(DecideNot(info, None, d), None, Some(right));
      var and := Apply(DecideJunction(info, LAnd, true, None, d), None, Some(right));
      var or := Apply(DecideJunction(info, LOr, false, None, d), None, Some(right));
      var xor := Apply(DecideXor(info, None, d), None, Some(right));
      && not.Some? && (Truthful(not.value, env, B(y == 0)) <==> !Folded(right))
      && and.Some? && Truthful(and.value, env, B(info.op1 != 0 && y != 0))
      && or.Some? && Truthful(or.value, env, B(info.op1 != 0 || y != 0))
      && xor.Some? && (Truthful(xor.value, env, B((info.op1 != 0) != (y != 0))) <==> !Folded(right))
  {
  }

  /** The post-order step on a connective whose operands are right, folded or not, is right if and only if no folded
      operand is misread: a negation or exclusive or has none (or both) folded, and next to a folded operand of LAnd or
      LOr the other one has the deciding value. */
  lemma {:induction false} ConnectiveIsExact(c: Config, v: nat -> nat, l: nat, left: Option<Tree>, right: Option<Tree>)
    requires Ok(c) && 0 < l < |c.nest| && LabelRespected(c.table, v, l) && IsConnective(c.table[l])
    requires left.Some? <==> HasLeft(c, l)
    requires right.Some? <==> HasRight(c, l)
    requires OptTruthful(left, EnvOf(c.table, v), v(c.table[l].l1))
    requires OptTruthful(right, EnvOf(c.table, v), v(c.table[l].l2))
    requires Simplify(c, l, left, right).Some?
    ensures
      var info := c.table[l];
      Truthful(Simplify(c, l, left, right).value, EnvOf(c.table, v), v(l))
      <==> RightNode(info, left, right, v(info.l1), v(info.l2))
  {
    hide Truthful, Apply, Eval, Constantly, Ok, HasLeft, HasRight, DecideNot, DecideJunction, DecideXor, DecideCmp, Folded;
    ConnectiveShape(c, l, left, right);
    var info, env := c.table[l], EnvOf(c.table, v);
    if info.l1 == 0 {
      UnaryIsExact(info, right.value, env, v(info.l2));
    } else if info.op == L.And {
      JunctionIsExact(info, LAnd, true, left.value, right.value, env, v(info.l1), v(info.l2));
    } else if info.op == L.Or {
      JunctionIsExact(info, LOr, false, left.value, right.value, env, v(info.l1), v(info.l2));
    } else {
      XorIsExact(info, left.value, right.value, env, v(info.l1), v(info.l2));
    }
  }

  /** The operands of a connective that is not given up on. */
  lemma {:induction false} ConnectiveShape(c: Config, l: nat, left: Option<Tree>, right: Option<Tree>)
    requires Ok(c) && 0 < l < |c.nest| && IsConnective(c.table[l]) && Simplify(c, l, left, right).Some?
    requires left.Some? <==> HasLeft(c, l)
    requires right.Some? <==> HasRight(c, l)
    ensures l < |c.table|
    ensures
      var info := c.table[l];
      && info.size == 1 && right.Some? && info.l2 != 0 && (left.Some? <==> info.l1 != 0)
      && Scanned(c)
  {
    ChildFacts(c, l);
    hide Strip;
  }

  // ---- comparisons ----

  /** The constant for which a comparison with a boolean is the boolean itself. */
  function Neutral(p: L.Predicate): nat {
    if p == L.Bveq then 1 else 0
  }

  /** When a boolean `t` with value `x` compared with the label `other` or the constant `k` is handled rightly; `value` is
      what the comparison gives.  Two booleans count as different, and any constant but the neutral one as a negation. */
  predicate BoolCompareRight(p: L.Predicate, other: nat, k: nat, t: Tree, x: nat, value: nat) {
    if other != 0 then value == 0
    else if k == Neutral(p) then true
    else if Folded(t) then value == 1
    else value == B(x == 0)
  }

  lemma {:induction false} BoolCompareIsExact(p: L.Predicate, other: nat, k: nat, t: Tree, copy: Action,
                                              left: Option<Tree>, right: Option<Tree>, env: Env, x: nat, value: nat)
    requires (p == L.Bveq || p == L.Bvneq) && Truthful(t, env, x) && value <= 1
    requires other == 0 ==> value == B((x == k) == (p == L.Bveq))
    requires if copy == CopyLeft then left == Some(t) && right == None else copy == CopyRight && left == None && right == Some(t)
    ensures
      var r := Apply(DecideBoolCompare(p, other, k, t.data, copy), left, right);
      r.Some? && (Truthful(r.value, env, value) <==> BoolCompareRight(p, other, k, t, x, value))
  {
    FoldedIsFalse(t, env);
    NegationIs(t, env);
    hide Eval;
  }

  /** A folded operand is no formula. */
  lemma {:induction false} FoldedIsFalse(t: Tree, env: Env)
    ensures Folded(t) ==> !Eval(t, env)
  {
  }

  lemma {:induction false} NegationIs(t: Tree, env: Env)
    ensures Eval(T1(NEGATE.data, t), env) == !Eval(t, env)
  {
  }

  /** The negation of a folded boolean has no normal form that makes it true, and one that makes it false is the constant
      as a literal of no label. */
  lemma {:induction false} FoldedNegation(t: Tree)
    requires Folded(t) && t.T0?
    ensures Nnf(true, T1(NEGATE.data, t)) == None && Nnf(false, T1(NEGATE.data, t)) == Some(t)
  {
    assert Nnf(false, t) == None && Nnf(true, t) == Some(t);
  }

  /** A constant is right if and only if it is the value. */
  lemma {:induction false} ConstantIsExact(b: bool, env: Env, value: nat)
    requires value <= 1
    ensures Truthful(Constantly(b), env, value) <==> value == B(b)
  {
  }

  /** When a comparison is handled rightly; `value` is the label's.  What is folded, at the recorded operands and as
      64-bit numbers, must happen to have that value. */
  predicate RightCompare(c: Config, l: nat, left: Option<Tree>, right: Option<Tree>, x: nat, y: nat, value: nat)
    requires Scanned(c) && 0 < l < |c.nest| && c.table[l].op.ICmp?
  {
    var info := c.table[l];
    var p := info.op.pred;
    var recorded := value == B(EvalIcmp(p, info.op1, info.op2));
    if left.None? && right.None? then Folds(c, l) ==> recorded
    else if (left.Some? && right.Some?) || (p != L.Bveq && p != L.Bvneq) then recorded
    else if left.Some? then BoolCompareRight(p, info.l2, info.op2, left.value, x, value)
    else BoolCompareRight(p, info.l1, info.op1, right.value, y, value)
  }

  /** A comparison that becomes a constant but keeps its child. */
  lemma {:induction false} KeptConstantIsExact(b: bool, left: Option<Tree>, right: Option<Tree>, env: Env, value: nat)
    requires value <= 1
    ensures
      var r := Apply(Keep(SetBoolvalue(ONE_BIT.(kind := Bool), b)), left, right);
      r.Some? && (Truthful(r.value, env, value) <==> value == B(b))
  {
  }

  /** The post-order step on a comparison whose operands are right, folded or not, is right if and only if
      `RightCompare`. */
  lemma {:induction false} CompareIsExact(c: Config, v: nat -> nat, l: nat, left: Option<Tree>, right: Option<Tree>)
    requires Ok(c) && 0 < l < |c.nest| && LabelRespected(c.table, v, l) && c.table[l].op.ICmp?
    requires left.Some? <==> HasLeft(c, l)
    requires right.Some? <==> HasRight(c, l)
    requires OptTruthful(left, EnvOf(c.table, v), v(c.table[l].l1))
    requires OptTruthful(right, EnvOf(c.table, v), v(c.table[l].l2))
    requires Simplify(c, l, left, right).Some?
    ensures
      var info := c.table[l];
      Truthful(Simplify(c, l, left, right).value, EnvOf(c.table, v), v(l))
      <==> RightCompare(c, l, left, right, v(info.l1), v(info.l2), v(l))
  {
    hide Truthful, Apply, Constantly, Folds, EvalIcmp, KindOf, Compare, DecideBoolCompare, BoolCompareRight, SetBoolvalue;
    var info, env := c.table[l], EnvOf(c.table, v);
    var p := info.op.pred;
    var b := EvalIcmp(p, info.op1, info.op2);
    ConstantIsExact(b, env, v(l));
    FoldApplies(b, left, right);
    KeptConstantIsExact(b, left, right, env, v(l));
    if left.None? && right.None? {
      LeafMeaning(c, v, l);
      LeafIsTruthful(c, v, l);
    } else if (left.Some? && right.Some?) || (p != L.Bveq && p != L.Bvneq) {
    } else if left.Some? {
      CompareSwaps(p, v(info.l1), info.op2, info.size);
      BoolCompareIsExact(p, info.l2, info.op2, left.value, CopyLeft, left, None, env, v(info.l1), v(l));
    } else {
      CompareSwaps(p, v(info.l2), info.op1, info.size);
      BoolCompareIsExact(p, info.l1, info.op1, right.value, CopyRight, None, right, env, v(info.l2), v(l));
    }
  }

  lemma {:induction false} FoldApplies(b: bool, left: Option<Tree>, right: Option<Tree>)
    ensures Apply(Fold(b), left, right) == Some(Constantly(b))
  {
  }

  lemma {:induction false} LeafIsTruthful(c: Config, v: nat -> nat, l: nat)
    requires Ok(c) && 0 < l < |c.nest| && c.table[l].op.ICmp? && LabelRespected(c.table, v, l)
    ensures
      var r := Apply(Keep(ONE_BIT.(kind := KindOf(c.table[l].op.pred), node := l)), None, None);
      r.Some? && Truthful(r.value, EnvOf(c.table, v), v(l))
  {
    hide Compare;
    LeafMeaning(c, v, l);
    assert KindOf(c.table[l].op.pred) != LNot;
  }

  // ---- whole conditions ----

  /** The node is handled rightly. */
  ghost predicate RightAt(c: Config, v: nat -> nat, l: nat, left: Option<Tree>, right: Option<Tree>)
    requires Ok(c) && 0 < l < |c.nest|
  {
    var info := c.table[l];
    if info.op.ICmp? then RightCompare(c, l, left, right, v(info.l1), v(info.l2), v(l))
    else info.op == L.Fmemcmp || (IsConnective(info) && RightNode(info, left, right, v(info.l1), v(info.l2)))
  }

  ghost function LeftTree(c: Config, l: nat): Option<Tree>
    requires Ok(c) && 0 < l < |c.nest|
  {
    ChildFacts(c, l);
    if HasLeft(c, l) then Compile(c, LeftOf(c, l)) else None
  }

  ghost function RightTree(c: Config, l: nat): Option<Tree>
    requires Ok(c) && 0 < l < |c.nest|
  {
    ChildFacts(c, l);
    if HasRight(c, l) then Compile(c, RightOf(c, l)) else None
  }

  /** Every node of the condition is. */
  ghost predicate AllRight(c: Config, v: nat -> nat, l: nat)
    requires Ok(c) && 0 < l < |c.nest|
    decreases l
  {
    ChildFacts(c, l);
    && (HasLeft(c, l) ==> AllRight(c, v, LeftOf(c, l)))
    && (HasRight(c, l) ==> AllRight(c, v, RightOf(c, l)))
    && RightAt(c, v, l, LeftTree(c, l), RightTree(c, l))
  }

  /** The definition of `Compile`. */
  lemma {:induction false} CompileIs(c: Config, l: nat)
    requires Ok(c) && 0 < l < |c.nest| && Compile(c, l).Some?
    ensures Compile(c, l) == Simplify(c, l, LeftTree(c, l), RightTree(c, l))
    ensures (LeftTree(c, l).Some? <==> HasLeft(c, l)) && (RightTree(c, l).Some? <==> HasRight(c, l))
    ensures HasLeft(c, l) ==> 0 < LeftOf(c, l) < l && LeftTree(c, l) == Compile(c, LeftOf(c, l))
    ensures HasRight(c, l) ==> 0 < RightOf(c, l) < l && RightTree(c, l) == Compile(c, RightOf(c, l))
  {
    hide Ok, Simplify, HasLeft, HasRight, LeftOf, RightOf;
    ChildFacts(c, l);
  }

  lemma {:induction false} AllRightIs(c: Config, v: nat -> nat, l: nat)
    requires Ok(c) && 0 < l < |c.nest| && AllRight(c, v, l)
    ensures HasLeft(c, l) ==> 0 < LeftOf(c, l) < l && AllRight(c, v, LeftOf(c, l))
    ensures HasRight(c, l) ==> 0 < RightOf(c, l) < l && AllRight(c, v, RightOf(c, l))
    ensures RightAt(c, v, l, LeftTree(c, l), RightTree(c, l))
  {
    hide Ok, RightAt, LeftTree, RightTree, HasLeft, HasRight, LeftOf, RightOf;
    ChildFacts(c, l);
  }

  /** Stripping zero extensions off an operand keeps its value. */
  lemma {:induction false} StrippedValues(c: Config, v: nat -> nat, l: nat)
    requires Ok(c) && 0 < l < |c.nest| && Respects(c.table, v)
    ensures l < |c.table| && LabelRespected(c.table, v, l)
    ensures v(LeftOf(c, l)) == v(c.table[l].l1) && v(RightOf(c, l)) == v(c.table[l].l2)
  {
    hide LabelRespected, StripFrom;
    StripFromValue(c, v, c.table[l].l1, c.table[l].l1);
    StripFromValue(c, v, c.table[l].l2, c.table[l].l2);
  }

  lemma {:induction false} NodeIsTruthful(c: Config, v: nat -> nat, l: nat, left: Option<Tree>, right: Option<Tree>)
    requires Ok(c) && 0 < l < |c.nest| && LabelRespected(c.table, v, l)
    requires left.Some? <==> HasLeft(c, l)
    requires right.Some? <==> HasRight(c, l)
    requires OptTruthful(left, EnvOf(c.table, v), v(c.table[l].l1))
    requires OptTruthful(right, EnvOf(c.table, v), v(c.table[l].l2))
    requires Simplify(c, l, left, right).Some?
    requires RightAt(c, v, l, left, right)
    ensures Truthful(Simplify(c, l, left, right).value, EnvOf(c.table, v), v(l))
  {
    hide Truthful, Simplify, RightCompare, RightNode, HasLeft, HasRight;
    if c.table[l].op.ICmp? {
      CompareIsExact(c, v, l, left, right);
    } else if c.table[l].op == L.Fmemcmp {
      MemcmpIsTruthful(c, v, l, left, right);
    } else {
      ConnectiveIsExact(c, v, l, left, right);
    }
  }

  lemma {:induction false} MemcmpIsTruthful(c: Config, v: nat -> nat, l: nat, left: Option<Tree>, right: Option<Tree>)
    requires Ok(c) && 0 < l < |c.nest| && LabelRespected(c.table, v, l) && c.table[l].op == L.Fmemcmp
    requires Simplify(c, l, left, right).Some?
    ensures Truthful(Simplify(c, l, left, right).value, EnvOf(c.table, v), v(l))
  {
    hide Strip;
  }

  /** A condition whose nodes are all handled rightly is compiled to its truth, or to the constant that it is, also where
      operands were folded. */
  lemma {:induction false} CompileIsTruthful(c: Config, v: nat -> nat, l: nat)
    requires Ok(c) && 0 < l < |c.nest| && Respects(c.table, v) && AllRight(c, v, l) && Compile(c, l).Some?
    ensures Truthful(Compile(c, l).value, EnvOf(c.table, v), v(l))
    decreases l
  {
    hide *;
    CompileIs(c, l);
    AllRightIs(c, v, l);
    StrippedValues(c, v, l);
    if HasLeft(c, l) { CompileIsTruthful(c, v, LeftOf(c, l)); }
    if HasRight(c, l) { CompileIsTruthful(c, v, RightOf(c, l)); }
    OptIs(LeftTree(c, l), EnvOf(c.table, v), v(c.table[l].l1));
    OptIs(RightTree(c, l), EnvOf(c.table, v), v(c.table[l].l2));
    NodeIsTruthful(c, v, l, LeftTree(c, l), RightTree(c, l));
  }

  lemma {:induction false} OptIs(t: Option<Tree>, env: Env, value: nat)
    ensures OptTruthful(t, env, value) <==> t.None? || Truthful(t.value, env, value)
  {
  }

  // ---- a condition that is compiled to something else ----

  /** A comparison without comparisons below it. */
  lemma {:induction false} CompileLeaf(c: Config, l: nat)
    requires Ok(c) && 0 < l < |c.nest| && c.table[l].op.ICmp?
    requires c.nest[c.table[l].l1] == 0 && c.nest[c.table[l].l2] == 0
    ensures
      var info := c.table[l];
      Compile(c, l) == Some(if Folds(c, l) then Constantly(EvalIcmp(info.op.pred, info.op1, info.op2))
                            else T0(ONE_BIT.(kind := KindOf(info.op.pred), node := l)))
  {
    ChildFacts(c, l);
    hide Ok, Folds, EvalIcmp, Strip, KindOf;
  }

  /** A conjunct folded to false is dropped. */
  lemma {:induction false} CompileFoldedAnd(c: Config, l: nat, t: Tree)
    requires Ok(c) && 0 < l < |c.nest| && c.table[l].op == L.And && c.table[l].size == 1 && c.table[l].l1 != 0
    requires HasLeft(c, l) && HasRight(c, l)
    requires Compile(c, LeftOf(c, l)) == Some(Constantly(false)) && Compile(c, RightOf(c, l)) == Some(t) && !Folded(t)
    ensures Compile(c, l) == Some(t)
  {
    hide Ok, Strip, HasLeft, HasRight, LeftOf, RightOf;
  }

  /** An input byte, its double, a comparison of the double with itself, a comparison of the byte with 5, and the
      conjunction of both.  Sizes and counts are as scan_labels caches them, with a limit that the double exceeds. */
  function Example(): Config {
    Config([L.LabelInfo(0, 0, 0, 0, L.Input, 8),
            L.LabelInfo(0, 0, 0, 0, L.Input, 8),
            L.LabelInfo(1, 1, 0, 0, L.Add, 8),
            L.LabelInfo(2, 2, 9, 9, L.ICmp(L.Bvult), 8),
            L.LabelInfo(1, 0, 7, 5, L.ICmp(L.Bveq), 8),
            L.LabelInfo(3, 4, 0, 0, L.And, 1)],
           [0, 0, 0, 1, 1, 2], [1, 1, 3, 7, 3, 11], map[], 2)
  }

  lemma {:induction false} ExampleIs()
    ensures var c := Example();
      && |c.table| == |c.nest| == |c.size| == 6 && c.maxSize == 2 && c.concretize == map[]
      && c.table[0].op == c.table[1].op == L.Input && c.table[2].op == L.Add
      && c.table[3] == L.LabelInfo(2, 2, 9, 9, L.ICmp(L.Bvult), 8)
      && c.table[4] == L.LabelInfo(1, 0, 7, 5, L.ICmp(L.Bveq), 8)
      && c.table[5] == L.LabelInfo(3, 4, 0, 0, L.And, 1)
      && c.nest[0] == c.nest[1] == c.nest[2] == 0 && c.nest[3] == c.nest[4] == 1
      && c.size[0] == c.size[1] == 1 && c.size[2] == c.size[4] == 3 && c.size[3] == 7
  {
  }

  lemma {:induction false} ExampleOrdered()
    ensures L.Ordered(Example().table) && Example().table[0].size == 8
  {
  }

  lemma {:induction false} ExampleOk()
    ensures Ok(Example()) && |Example().nest| == 6
  {
    ExampleIs();
    ExampleOrdered();
    hide Example, L.Ordered;
  }

  lemma {:induction false} ExampleFolds()
    requires Ok(Example()) && |Example().nest| == 6
    ensures Folds(Example(), 3) && !Folds(Example(), 4)
  {
    ExampleIs();
    hide Example, Ok;
  }

  lemma {:induction false} ExampleStrip()
    requires Ok(Example()) && |Example().nest| == 6
    ensures HasLeft(Example(), 5) && HasRight(Example(), 5) && LeftOf(Example(), 5) == 3 && RightOf(Example(), 5) == 4
  {
    ExampleIs();
    hide Example, Ok;
  }

  lemma {:induction false} ExampleValues(v: nat -> nat)
    requires Respects(Example().table, v) && v(1) == 5
    ensures v(5) == 0 && Eval(T0(ONE_BIT.(kind := Equal, node := 4)), EnvOf(Example().table, v))
  {
    hide Example, Signed;
    ExampleIs();
    var t := Example().table;
    assert LabelRespected(t, v, 3) && LabelRespected(t, v, 5);
  }

  /** The comparison that is never true is folded to a constant and then dropped: the conjunction is compiled to the
      other comparison, which is true when the byte is 5. */
  lemma {:induction false} FoldedConjunctIsLost(v: nat -> nat)
    requires Respects(Example().table, v) && v(1) == 5
    ensures Ok(Example()) && |Example().nest| == 6 && v(5) == 0
    ensures
      var r := Compile(Example(), 5);
      r.Some? && Eval(r.value, EnvOf(Example().table, v)) && r == Compile(Example(), 4)
  {
    hide Example, Compile, Ok, HasLeft, HasRight, LeftOf, RightOf, Folds, Eval, LabelRespected;
    var c := Example();
    ExampleIs();
    ExampleOk();
    ExampleFolds();
    ExampleStrip();
    ExampleValues(v);
    CompileLeaf(c, 3);
    CompileLeaf(c, 4);
    CompileFoldedAnd(c, 5, T0(ONE_BIT.(kind := Equal, node := 4)));
  }
}
