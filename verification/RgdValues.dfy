/** The RGD parser's valuations are the values that labels stand for, so that its formulas speak about the same values as
    the label table and the Z3 parser. */
module RgdValues {
  import opened Base
  import L = Labels
  import V = LabelValues
  import LM = LabelMeaning
  import Z = Z3Meaning
  import Z3Expr
  import A = Ast
  import F = Formula
  import R = FindRoots
  import P = RgdParser

  function Values(w: V.World, table: seq<L.LabelInfo>): nat -> nat
    requires L.Ordered(table)
  {
    (l: nat) => if l < |table| then V.Value(w, table, l) else 0
  }

  /** An operand no wider than its operator. */
  predicate Fits(table: seq<L.LabelInfo>, size: nat, l: nat, k: nat)
    requires L.Ordered(table) && l < |table|
  {
    if l == 0 then k < Pow2(size) else V.LabelBits(table, l) <= size
  }

  predicate IsTwoSided(info: L.LabelInfo) {
    info.op.ICmp? || (info.size == 1 && (info.op == L.And || info.op == L.Or || info.op == L.Xor))
  }

  /** Comparisons and one-bit connectives have operands of their width. */
  ghost predicate WellTyped(table: seq<L.LabelInfo>)
    requires L.Ordered(table)
  {
    forall l :: 0 < l < |table| && IsTwoSided(table[l]) ==>
      && Fits(table, table[l].size, table[l].l1, table[l].op1) && Fits(table, table[l].size, table[l].l2, table[l].op2)
  }

  lemma {:induction false} SameCompare(p: L.Predicate, x: nat, y: nat, bits: nat)
    ensures A.Compare(R.KindOf(p), x, y, bits) == Z3Expr.Holds(p, x, y, bits)
  {
  }

  /** An operand that fits is not cut. */
  lemma {:induction false} OperandIs(w: V.World, table: seq<L.LabelInfo>, l: nat, second: bool)
    requires L.Ordered(table) && LM.AllWiden(table) && 0 < l < |table|
    requires
      var info := table[l];
      if second then Fits(table, info.size, info.l2, info.op2) else Fits(table, info.size, info.l1, info.op1)
    ensures V.Operand(w, table, l, second)
      == if second then R.Rhs(table, Values(w, table), l) else R.Lhs(table, Values(w, table), l)
  {
    var info := table[l];
    var k, c := if second then info.l2 else info.l1, if second then info.op2 else info.op1;
    Pow2Small();
    hide Pow2, V.Value, V.LabelBits, LM.AllWiden;
    if k != 0 {
      LM.ValueRange(w, table, k);
      Pow2Monotone(V.LabelBits(table, k), info.size);
      ModSmall(V.Value(w, table, k), Pow2(info.size));
    } else {
      ModSmall(c, Pow2(info.size));
    }
  }

  lemma {:induction false} OneBitOperand(w: V.World, table: seq<L.LabelInfo>, l: nat, second: bool)
    requires L.Ordered(table) && 0 < l < |table| && table[l].size == 1
    ensures V.Operand(w, table, l, second) <= 1
  {
    Pow2Small();
    hide V.Value, Pow2;
  }

  lemma {:induction false} LabelRespects(w: V.World, table: seq<L.LabelInfo>, l: nat)
    requires L.Ordered(table) && LM.AllWiden(table) && WellTyped(table) && Z.OneBitXor(w.arith) && 0 < l < |table|
    ensures R.LabelRespected(table, Values(w, table), l)
  {
    var info := table[l];
    if IsTwoSided(info) {
      OperandIs(w, table, l, false);
      OperandIs(w, table, l, true);
      var x, y := V.Operand(w, table, l, false), V.Operand(w, table, l, true);
      if info.op.ICmp? {
        SameCompare(info.op.pred, x, y, info.size);
      } else {
        OneBitOperand(w, table, l, false);
        OneBitOperand(w, table, l, true);
        Pow2Small();
        assert w.arith(L.Xor, 1, x, y) % 2 == Z3Expr.LogicValue(L.Xor, x, y);
      }
      hide V.Operand, Pow2, Z3Expr.Holds, A.Compare, V.LabelBits, R.KindOf;
    }
  }

  /** What labels stand for is a valuation as find_roots takes it. */
  lemma {:induction false} ValuesRespect(w: V.World, table: seq<L.LabelInfo>)
    requires L.Ordered(table) && LM.AllWiden(table) && WellTyped(table) && Z.OneBitXor(w.arith)
    ensures R.Respects(table, Values(w, table))
  {
    forall l | 0 < l < |table| ensures R.LabelRespected(table, Values(w, table), l) { LabelRespects(w, table, l); }
  }

  /** So the formula of a clean condition is true on exactly the inputs on which the condition's label has a value other
      than zero. */
  lemma {:induction false} FormulaMeans(w: V.World, c: R.Config, l: nat)
    requires R.Ok(c) && 0 < l < |c.nest| && R.Clean(c, l) && R.Compile(c, l).Some?
    requires LM.AllWiden(c.table) && WellTyped(c.table) && Z.OneBitXor(w.arith)
    ensures F.Eval(R.Compile(c, l).value, R.EnvOf(c.table, Values(w, c.table))) <==> V.Value(w, c.table, l) != 0
  {
    ValuesRespect(w, c.table);
    hide R.Respects, R.Compile, R.Clean, V.Value;
    R.CompileMeaning(c, Values(w, c.table), l);
  }

  /** And the clauses that parse_cond makes tasks of are satisfied by exactly the inputs that give the label the other
      truth value. */
  lemma {:induction false} ClausesFlipLabel(w: V.World, c: R.Config, l: nat, result: bool, clauses: seq<F.Clause>)
    requires R.Ok(c) && 0 < l < |c.nest| && R.TreeShaped(c, l) && R.Clean(c, l) && R.NoXor(c, l)
    requires P.ExactClauses(c, l, result, clauses)
    requires LM.AllWiden(c.table) && WellTyped(c.table) && Z.OneBitXor(w.arith)
    ensures F.Satisfied(clauses, R.EnvOf(c.table, Values(w, c.table))) <==> (V.Value(w, c.table, l) != 0) == !result
  {
    ValuesRespect(w, c.table);
    hide R.Respects, R.Clean, V.Value, F.Satisfied;
  }
}
