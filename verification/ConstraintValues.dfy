/** What the solvers compute from the tree of a constraint (solvers/z3-solver.cpp, solvers/jigsaw/jit.cc) is the value that
    its label stands for. */
module ConstraintValues {
  import opened Base
  import L = Labels
  import opened Ast
  import S = ScanLabels
  import opened AstSizes
  import opened Constraints
  import opened ConstraintMeaning
  import V = LabelValues
  import LM = LabelMeaning
  import X = Z3Expr
  import Z = Z3Serialize
  import ZM = Z3Meaning
  import R = FindRoots
  import RV = RgdValues

  // ---- what a node computes, by its kind ----

  function BitVector(m: X.ArithMeaning, op: L.Op, bits: nat, x: Val, y: Val): Val {
    (m(op, bits, x.0, y.0) % Pow2(bits), bits)
  }

  /** One bit is handled as a truth value. */
  function Bitwise(m: X.ArithMeaning, op: L.Op, bits: nat, x: Val, y: Val): Val {
    if bits == 1 then (X.LogicValue(op, x.0, y.0), 1) else BitVector(m, op, bits, x, y)
  }

  /** The value of a node from the values of its children.  Comparisons give 0 or 1, and memcmp gives 0 for equal buffers. */
  function NodeVal(m: X.ArithMeaning, d: Data, x: Val, y: Val): Val {
    match d.kind
    case Concat => (x.0 + X.Times(y.0, Pow2(x.1)), x.1 + y.1)
    case Extract => (x.0 / Pow2(d.index) % Pow2(d.bits), d.bits)
    case ZExt => (x.0, d.bits)
    case SExt => (X.SignExtend(x.0, x.1, if d.bits < x.1 then 0 else d.bits - x.1), d.bits)
    case Add => BitVector(m, L.Add, d.bits, x, y)
    case Sub => BitVector(m, L.Sub, d.bits, x, y)
    case Mul => BitVector(m, L.Mul, d.bits, x, y)
    case UDiv => BitVector(m, L.UDiv, d.bits, x, y)
    case SDiv => BitVector(m, L.SDiv, d.bits, x, y)
    case URem => BitVector(m, L.URem, d.bits, x, y)
    case SRem => BitVector(m, L.SRem, d.bits, x, y)
    case Shl => BitVector(m, L.Shl, d.bits, x, y)
    case LShr => BitVector(m, L.LShr, d.bits, x, y)
    case AShr => BitVector(m, L.AShr, d.bits, x, y)
    case And => Bitwise(m, L.And, d.bits, x, y)
    case Or => Bitwise(m, L.Or, d.bits, x, y)
    case Xor => BitVector(m, L.Xor, d.bits, x, y)
    case Memcmp => (B(x.0 != y.0), 32)
    case _ => (B(Compare(d.kind, x.0, y.0, d.bits)), 1)
  }

  function ByKind(m: X.ArithMeaning): Meaning {
    (d: Data, x: Val, y: Val) => NodeVal(m, d, x, y)
  }

  // ---- the labels this holds for ----

  /** The constant of a Concat has the bits that its label leaves, fewer than 256. */
  predicate ConcatFits(table: seq<L.LabelInfo>, size: nat, other: nat, k: nat)
    requires other < |table|
  {
    other != 0 && 0 <= size - table[other].size < WRAP8 && k < Pow2(size - table[other].size)
  }

  /** Reads are of input `id`, casts and joins have a label to work on, and other operands are no wider than their
      operator. */
  predicate Sound(table: seq<L.LabelInfo>, id: nat, l: nat)
    requires L.Ordered(table) && 0 < l < |table|
  {
    var info := table[l];
    match info.op
    case Input => info.op2 == id
    case Load => info.l2 > 0 && table[info.l1].op2 == id
    case ZExt => info.l1 != 0
    case SExt => info.l1 != 0
    case Trunc => info.l1 != 0
    case Extract => info.l1 != 0
    case Concat =>
      && (info.l1 == 0 ==> ConcatFits(table, info.size, info.l2, info.op1))
      && (info.l2 == 0 ==> ConcatFits(table, info.size, info.l1, info.op2))
    case Fmemcmp => info.size > 0
    case _ => RV.Fits(table, info.size, info.l1, info.op1) && RV.Fits(table, info.size, info.l2, info.op2)
  }

  /** What is asked of the table, of the labels that were concretized and of the recorded buffers. */
  ghost predicate Fair(s: Source, w: V.World, id: nat) {
    && L.Ordered(s.table) && LM.AllWiden(s.table) && OnlyCompares(s.table, s.conc, |s.table|)
    && ZM.ContentsAgree(w, s.table, s.contents)
    && forall l :: 0 < l < |s.table| ==> Sound(s.table, id, l)
  }

  function InputOf(w: V.World, id: nat): nat -> nat {
    (o: nat) => w.input((id, o))
  }

  // ---- reads and buffers ----

  lemma {:induction false} BytesAgree(w: V.World, id: nat, offset: nat, n: nat)
    requires n > 0
    ensures ByteSum(InputOf(w, id), offset, n) == V.Bytes(w.input, (id, offset), n)
  {
    if n > 1 {
      BytesAgree(w, id, offset, n - 1);
    } else {
      assert ByteSum(InputOf(w, id), offset, 0) == 0 && Pow2(0) == 1;
    }
    hide Pow2;
  }

  /** A piece of a buffer is its part of the whole. */
  lemma {:induction false} ChunkIsPart(bytes: seq<nat>, at: nat, n: nat)
    ensures Z.LittleEndian(bytes, at + n) == Z.LittleEndian(bytes, at) + ChunkValue(bytes, at, n) * Pow2(8 * at)
  {
    if n > 0 {
      ChunkIsPart(bytes, at, n - 1);
      var b := if at + n <= |bytes| then bytes[at + n - 1] % 256 else 0;
      Pow2Add(8 * (n - 1), 8 * at);
      assert 8 * (n - 1) + 8 * at == 8 * (at + n - 1);
      hide Pow2;
      Distribute(ChunkValue(bytes, at, n - 1), b, Pow2(8 * (n - 1)), Pow2(8 * at));
    }
  }

  lemma {:induction false} Distribute(c: nat, b: nat, p: nat, q: nat)
    ensures (c + b * p) * q == c * q + b * (p * q)
  {
  }

  lemma {:induction false} ChunksAre(bytes: seq<nat>, size: nat, i: nat)
    requires 8 * i < size
    ensures PieceAt(Chunks(bytes, size))(i) == ChunkValue(bytes, 8 * i, if 8 * i + 8 <= size then 8 else size - 8 * i)
  {
    hide ChunkValue;
    assert i < (size + 7) / 8;
  }

  /** The pieces of a buffer together are the buffer. */
  lemma {:induction false} PiecesAre(bytes: seq<nat>, size: nat, j: nat)
    requires 8 * j < size + 8
    ensures PieceSum(PieceAt(Chunks(bytes, size)), 0, j) == Z.LittleEndian(bytes, if 8 * j <= size then 8 * j else size)
  {
    hide Pow2, ChunkValue, Z.LittleEndian, Chunks, PieceAt;
    if j > 0 {
      PiecesAre(bytes, size, j - 1);
      var at, n := 8 * (j - 1), if 8 * j <= size then 8 else size - 8 * (j - 1);
      ChunksAre(bytes, size, j - 1);
      ChunkIsPart(bytes, at, n);
      assert 8 * at == 64 * (j - 1);
    } else {
      NoBytes(bytes);
    }
  }

  lemma {:induction false} NoBytes(bytes: seq<nat>)
    ensures Z.LittleEndian(bytes, 0) == 0
  {
  }

  // ---- by the labels ----

  /** The value and the width of label `l`. */
  function LabelOf(w: V.World, table: seq<L.LabelInfo>, l: nat): Val
    requires L.Ordered(table) && l < |table|
  {
    (V.Value(w, table, l), V.LabelBits(table, l))
  }

  /** The value and the width of an operand of label `l`; a constant of memcmp is the recorded buffer. */
  function OperandOf(s: Source, w: V.World, second: bool, l: nat): Val
    requires L.Ordered(s.table) && 0 < l < |s.table|
  {
    var (info, k) := (s.table[l], OperandLabel(s, second, l));
    if k != 0 then LabelOf(w, s.table, k)
    else
      (if info.op == L.Fmemcmp && !second then w.content(l) else if second then info.op2 else info.op1,
       OperandBits(s, second, l))
  }

  lemma {:induction false} UnaryVal(w: V.World, table: seq<L.LabelInfo>, id: nat, l: nat)
    requires L.Ordered(table) && 0 < l < |table| && Sound(table, id, l) && IsUnary(table[l].op)
    ensures NodeVal(w.arith, Bare(NodeData(table[l], l)), LabelOf(w, table, table[l].l1), (0, 0)) == LabelOf(w, table, l)
  {
    hide Pow2, X.SignExtend;
    if table[l].op == L.Trunc { DivOne(V.Value(w, table, table[l].l1)); }
  }

  lemma {:induction false} ConcatVal(s: Source, w: V.World, id: nat, l: nat)
    requires L.Ordered(s.table) && 0 < l < |s.table| && Sound(s.table, id, l) && s.table[l].op == L.Concat
    ensures NodeVal(w.arith, Bare(NodeData(s.table[l], l)), OperandOf(s, w, false, l), OperandOf(s, w, true, l))
      == LabelOf(w, s.table, l)
  {
    hide Pow2, X.Times, V.Value, V.LabelBits, OperandOf, Sound, LabelOf;
    ConcatOperands(s, w, id, l);
    ConcatLabel(w, s.table, l);
  }

  /** The operands of a Concat: labels, or constants of the bits that are left. */
  lemma {:induction false} ConcatOperands(s: Source, w: V.World, id: nat, l: nat)
    requires L.Ordered(s.table) && 0 < l < |s.table| && Sound(s.table, id, l) && s.table[l].op == L.Concat
    ensures
      var info := s.table[l];
      && (info.l1 != 0 || info.l2 != 0)
      && OperandOf(s, w, false, l)
         == (if info.l1 != 0 then LabelOf(w, s.table, info.l1) else Rest(s.table, info, info.l2, info.op1))
      && OperandOf(s, w, true, l)
         == if info.l2 != 0 then LabelOf(w, s.table, info.l2) else Rest(s.table, info, info.l1, info.op2)
  {
    hide Pow2, LabelOf, ConcatFits;
    var info := s.table[l];
    if info.l1 == 0 { ConcatConstant(s.table, info.size, info.l2, info.op1); }
    if info.l2 == 0 { ConcatConstant(s.table, info.size, info.l1, info.op2); }
  }

  function Rest(table: seq<L.LabelInfo>, info: L.LabelInfo, other: nat, k: nat): Val
    requires other < |table|
  {
    (k % Pow2(V.ConcatRest(table, info, other)), V.ConcatRest(table, info, other))
  }

  lemma {:induction false} ConcatLabel(w: V.World, table: seq<L.LabelInfo>, l: nat)
    requires L.Ordered(table) && 0 < l < |table| && table[l].op == L.Concat && (table[l].l1 != 0 || table[l].l2 != 0)
    ensures
      var info := table[l];
      var x := if info.l1 != 0 then LabelOf(w, table, info.l1) else Rest(table, info, info.l2, info.op1);
      var y := if info.l2 != 0 then LabelOf(w, table, info.l2) else Rest(table, info, info.l1, info.op2);
      LabelOf(w, table, l) == (x.0 + X.Times(y.0, Pow2(x.1)), x.1 + y.1)
  {
    hide Pow2, X.Times, V.ConcatRest;
  }

  lemma {:induction false} ConcatConstant(table: seq<L.LabelInfo>, size: nat, other: nat, k: nat)
    requires other < |table| && ConcatFits(table, size, other, k)
    ensures
      var rest := size - table[other].size;
      rest % WRAP32 == rest && rest % 0x100 == rest && k % Pow2(rest) == k && other != 0
  {
    hide Pow2;
    var rest := size - table[other].size;
    ModSmall(rest, WRAP32);
    ModSmall(rest, 0x100);
    ModSmall(k, Pow2(rest));
  }

  /** An operand as find_roots takes it. */
  lemma {:induction false} OperandIsSide(s: Source, w: V.World, second: bool, l: nat)
    requires L.Ordered(s.table) && 0 < l < |s.table| && s.table[l].op != L.Fmemcmp
    ensures OperandOf(s, w, second, l).0
      == if second then R.Rhs(s.table, RV.Values(w, s.table), l) else R.Lhs(s.table, RV.Values(w, s.table), l)
  {
    hide V.Value, V.LabelBits, OperandBits;
  }

  predicate IsArithmetic(op: L.Op) {
    op in {L.Add, L.Sub, L.Mul, L.UDiv, L.SDiv, L.URem, L.SRem, L.Shl, L.LShr, L.AShr, L.And, L.Or, L.Xor}
  }

  lemma {:induction false} OperatorVal(s: Source, w: V.World, id: nat, l: nat)
    requires L.Ordered(s.table) && 0 < l < |s.table| && Sound(s.table, id, l) && LM.AllWiden(s.table)
    requires IsArithmetic(s.table[l].op) || s.table[l].op.ICmp?
    ensures NodeVal(w.arith, Bare(NodeData(s.table[l], l)), OperandOf(s, w, false, l), OperandOf(s, w, true, l))
      == LabelOf(w, s.table, l)
  {
    hide Pow2, LM.AllWiden, V.Operand, V.LabelBits, V.Value, OperandOf, X.Holds, Compare, X.LogicValue, R.KindOf;
    RV.OperandIs(w, s.table, l, false);
    RV.OperandIs(w, s.table, l, true);
    OperandIsSide(s, w, false, l);
    OperandIsSide(s, w, true, l);
    OperatorLabel(w, s.table, l);
    if s.table[l].op.ICmp? {
      var x, y := V.Operand(w, s.table, l, false), V.Operand(w, s.table, l, true);
      RV.SameCompare(s.table[l].op.pred, x, y, s.table[l].size);
      CompareKind(s.table[l].op.pred);
    }
  }

  lemma {:induction false} CompareKind(p: L.Predicate)
    ensures IsRelational(R.KindOf(p))
  {
  }

  /** The definitions at an operator. */
  lemma {:induction false} OperatorLabel(w: V.World, table: seq<L.LabelInfo>, l: nat)
    requires L.Ordered(table) && 0 < l < |table| && (IsArithmetic(table[l].op) || table[l].op.ICmp?)
    ensures
      var (info, x, y) := (table[l], V.Operand(w, table, l, false), V.Operand(w, table, l, true));
      LabelOf(w, table, l) ==
        if info.op.ICmp? then (B(X.Holds(info.op.pred, x, y, info.size)), 1)
        else if info.op == L.And || info.op == L.Or then Bitwise(w.arith, info.op, info.size, (x, 0), (y, 0))
        else BitVector(w.arith, info.op, info.size, (x, 0), (y, 0))
  {
    hide Pow2, V.Operand, X.Holds, X.LogicValue;
  }

  lemma {:induction false} MemcmpVal(s: Source, w: V.World, l: nat)
    requires L.Ordered(s.table) && 0 < l < |s.table| && s.table[l].op == L.Fmemcmp && s.table[l].l2 != 0
    ensures NodeVal(w.arith, Bare(NodeData(s.table[l], l)), OperandOf(s, w, false, l), OperandOf(s, w, true, l))
      == LabelOf(w, s.table, l)
  {
    hide OperandBits;
  }

  /** The value by recursion over the labels is the value that the label stands for. */
  lemma {:induction false} LabelValIs(s: Source, w: V.World, id: nat, l: nat)
    requires Fair(s, w, id) && 0 < l < |s.table| && Pure(s.table, l) && Buildable(s.table, s.conc, s.contents, l)
    ensures LabelVal(s, ByKind(w.arith), InputOf(w, id), l) == LabelOf(w, s.table, l)
    decreases l, 1
  {
    hide Fair, LabelOf, ByteSum, V.Bytes, NodeVal, NodeData, OperandVal, OperandOf, Buildable, Pure, RV.Fits, ConcatFits;
    FairAt(s, w, id, l);
    var info := s.table[l];
    if info.op == L.Input || info.op == L.Load {
      ReadVal(s, w, id, l);
    } else {
      BuildableOperator(s, l);
      PureOperands(s.table, l);
      NotFixed(s, l);
      OperandValIs(s, w, id, false, l);
      if IsUnary(info.op) {
        UnaryVal(w, s.table, id, l);
        OperandIsLabel(s, w, l);
      } else {
        OperandValIs(s, w, id, true, l);
        if info.op == L.Concat { ConcatVal(s, w, id, l); }
        else if info.op == L.Fmemcmp { MemcmpVal(s, w, l); }
        else { OperatorVal(s, w, id, l); }
      }
    }
  }

  lemma {:induction false} FairAt(s: Source, w: V.World, id: nat, l: nat)
    requires Fair(s, w, id) && 0 < l < |s.table|
    ensures L.Ordered(s.table) && Sound(s.table, id, l) && LM.AllWiden(s.table)
    ensures l in s.conc ==> s.table[l].op.ICmp?
    ensures l in s.contents ==> w.content(l) == Z.LittleEndian(s.contents[l], V.LoadSize(s.table[l].size))
  {
  }

  lemma {:induction false} OperandIsLabel(s: Source, w: V.World, l: nat)
    requires L.Ordered(s.table) && 0 < l < |s.table| && s.table[l].l1 != 0
    ensures OperandOf(s, w, false, l) == LabelOf(w, s.table, s.table[l].l1)
  {
  }

  lemma {:induction false} ReadVal(s: Source, w: V.World, id: nat, l: nat)
    requires L.Ordered(s.table) && 0 < l < |s.table| && Sound(s.table, id, l)
    requires s.table[l].op == L.Input || s.table[l].op == L.Load
    ensures LabelVal(s, ByKind(w.arith), InputOf(w, id), l) == LabelOf(w, s.table, l)
  {
    hide ByteSum, V.Bytes;
    var info := s.table[l];
    if info.op == L.Input { BytesAgree(w, id, info.op1, 1); OneByte(w, id, info.op1); }
    else { BytesAgree(w, id, s.table[info.l1].op1, info.l2); }
  }

  lemma {:induction false} OneByte(w: V.World, id: nat, offset: nat)
    ensures V.Bytes(w.input, (id, offset), 1) == w.input((id, offset)) % 256
  {
  }

  /** A buildable label without comparisons below it is an operator whose operands are of the same sort. */
  lemma {:induction false} BuildableOperator(s: Source, l: nat)
    requires L.Ordered(s.table) && 0 < l < |s.table| && Buildable(s.table, s.conc, s.contents, l)
    requires s.table[l].op != L.Input && s.table[l].op != L.Load && Pure(s.table, l)
    ensures
      var info := s.table[l];
      && (info.op == L.Fmemcmp || IsUnary(info.op) || info.op == L.Concat || IsArithmetic(info.op))
      && (info.op == L.Fmemcmp ==> info.l2 != 0 && (info.l1 == 0 ==> l in s.contents))
  {
  }

  lemma {:induction false} OperandValIs(s: Source, w: V.World, id: nat, second: bool, l: nat)
    requires Fair(s, w, id) && 0 < l < |s.table| && Buildable(s.table, s.conc, s.contents, l) && !IsFixed(s, second, l)
    requires s.table[l].op != L.Input && s.table[l].op != L.Load && (second ==> !IsUnary(s.table[l].op))
    requires OperandLabel(s, second, l) < l && Pure(s.table, OperandLabel(s, second, l))
    ensures OperandVal(s, ByKind(w.arith), InputOf(w, id), second, l) == OperandOf(s, w, second, l)
    decreases l, 0
  {
    hide Fair, LabelOf, LabelVal, Sound, ConstantVal, OperandBits, Buildable, Pure;
    FairAt(s, w, id, l);
    var k := OperandLabel(s, second, l);
    OperandBuildableToo(s, second, l);
    if k != 0 {
      LabelValIs(s, w, id, k);
    } else {
      ConstantIs(s, w, id, second, l);
    }
  }

  lemma {:induction false} OperandBuildableToo(s: Source, second: bool, l: nat)
    requires L.Ordered(s.table) && 0 < l < |s.table| && Buildable(s.table, s.conc, s.contents, l) && !IsFixed(s, second, l)
    requires s.table[l].op != L.Input && s.table[l].op != L.Load && (second ==> !IsUnary(s.table[l].op))
    ensures OperandLabel(s, second, l) < l
    ensures OperandLabel(s, second, l) != 0 ==> Buildable(s.table, s.conc, s.contents, OperandLabel(s, second, l))
    ensures OperandLabel(s, second, l) == 0 && s.table[l].op == L.Fmemcmp ==> !second && l in s.contents
  {
  }

  /** No operand of a label that was not concretized is taken as a constant. */
  lemma {:induction false} NotFixed(s: Source, l: nat)
    requires L.Ordered(s.table) && 0 < l < |s.table| && l !in s.conc
    ensures !IsFixed(s, false, l) && (!IsUnary(s.table[l].op) ==> !IsFixed(s, true, l))
  {
  }

  lemma {:induction false} PureOperands(table: seq<L.LabelInfo>, l: nat)
    requires L.Ordered(table) && 0 < l < |table|
    ensures table[l].l1 < l && table[l].l2 < l
    ensures Pure(table, l) && !IsRead(table[l].op) ==>
      !table[l].op.ICmp? && Pure(table, table[l].l1) && Pure(table, table[l].l2)
    ensures IsLeaf(table, l) ==> Pure(table, table[l].l1) && Pure(table, table[l].l2)
    ensures IsLeaf(table, l) && table[l].op == L.Fmemcmp ==> Pure(table, l)
  {
  }

  lemma {:induction false} ConstantIs(s: Source, w: V.World, id: nat, second: bool, l: nat)
    requires Fair(s, w, id) && 0 < l < |s.table| && OperandLabel(s, second, l) == 0
    requires s.table[l].op == L.Fmemcmp ==> !second && l in s.contents
    ensures (ConstantVal(s, second, l), OperandBits(s, second, l)) == OperandOf(s, w, second, l)
  {
    hide Fair, OperandBits, Sound;
    FairAt(s, w, id, l);
    var info := s.table[l];
    if info.op == L.Fmemcmp {
      BufferSize(s, w, id, l);
      PiecesAre(s.contents[l], info.size, (info.size + 7) / 8);
    }
  }

  lemma {:induction false} BufferSize(s: Source, w: V.World, id: nat, l: nat)
    requires Fair(s, w, id) && 0 < l < |s.table| && s.table[l].op == L.Fmemcmp
    ensures s.table[l].size > 0
  {
    assert Sound(s.table, id, l);
  }

  // ---- by the tree ----

  /** The tree of a constraint, evaluated by the kinds of its nodes on the bytes of an input, has the values of the labels:
      a memcmp that of its label; a comparison those of its operands, or the recorded ones where an operand was
      concretized, under a kind that compares as its predicate does; and that of its label if nothing was concretized. */
  lemma {:induction false} ConstraintMeans(s: Source, w: V.World, id: nat, x: Arguments, fill: nat -> nat, env: nat -> Val,
                                           t: Tree, l: nat)
    requires Fair(s, w, id) && 0 < l < |s.table| && IsLeaf(s.table, l)
    requires ConstraintMeaning.Fits(s, x, l) && Shows(s, x.args, t, l) && Filled(x, fill, InputOf(w, id))
    requires Referred(t) <= Opened(t) && Consistent(ByKind(w.arith), x, fill, env, t)
    ensures s.table[l].op == L.Fmemcmp ==> TreeVal(ByKind(w.arith), x, fill, env, t, false).0 == V.Value(w, s.table, l)
    ensures s.table[l].op.ICmp? ==>
      && t.T2? && t.data.bits == s.table[l].size
      && (forall a, b, n :: Compare(t.data.kind, a, b, n) <==> X.Holds(s.table[l].op.pred, a, b, n))
      && TreeVal(ByKind(w.arith), x, fill, env, t.left, false).0
         == (if LeftFixed(s.conc, l) || s.table[l].l1 == 0 then s.table[l].op1 else V.Value(w, s.table, s.table[l].l1))
      && TreeVal(ByKind(w.arith), x, fill, env, t.right, false).0
         == if RightFixed(s.conc, l) || s.table[l].l2 == 0 then s.table[l].op2 else V.Value(w, s.table, s.table[l].l2)
    ensures s.table[l].op.ICmp? && l !in s.conc ==>
      TreeVal(ByKind(w.arith), x, fill, env, t, false).0 == V.Value(w, s.table, l)
  {
    hide *;
    FairAt(s, w, id, l);
    PureOperands(s.table, l);
    FitsBuildable(s, x, l);
    TreeIsRight(s, ByKind(w.arith), x, fill, InputOf(w, id), env, t, l);
    if s.table[l].op == L.Fmemcmp {
      LabelValIs(s, w, id, l);
      LabelOfIs(w, s.table, l);
    } else if s.table[l].op.ICmp? {
      NotAgain(s, t, l);
      ComparisonIs(s, x.args, t, l);
      OperandsOfLiteral(s, ByKind(w.arith), x, fill, InputOf(w, id), env, t, l);
      if l !in s.conc { CompareVal(s, w, id, l); LabelOfIs(w, s.table, l); }
      SideIs(s, w, id, false, l);
      SideIs(s, w, id, true, l);
    } else {
      LeafIsCompare(s.table, l);
    }
  }

  lemma {:induction false} FitsBuildable(s: Source, x: Arguments, l: nat)
    requires L.Ordered(s.table) && l < |s.table| && ConstraintMeaning.Fits(s, x, l)
    ensures Buildable(s.table, s.conc, s.contents, l)
  {
  }

  lemma {:induction false} LabelOfIs(w: V.World, table: seq<L.LabelInfo>, l: nat)
    requires L.Ordered(table) && l < |table|
    ensures LabelOf(w, table, l).0 == V.Value(w, table, l)
  {
  }

  lemma {:induction false} LeafIsCompare(table: seq<L.LabelInfo>, l: nat)
    requires L.Ordered(table) && l < |table| && IsLeaf(table, l)
    ensures table[l].op == L.Fmemcmp || table[l].op.ICmp?
  {
  }

  /** The node of a comparison. */
  lemma {:induction false} ComparisonIs(s: Source, args: seq<Arg>, t: Tree, l: nat)
    requires L.Ordered(s.table) && 0 < l < |s.table| && s.table[l].op.ICmp? && Shows(s, args, t, l) && t != Again(s.table, l)
    ensures t.T2? && t.data.bits == s.table[l].size
    ensures forall a, b, n :: Compare(t.data.kind, a, b, n) <==> X.Holds(s.table[l].op.pred, a, b, n)
  {
    var p := s.table[l].op.pred;
    forall a: nat, b: nat, n: nat ensures Compare(R.KindOf(p), a, b, n) <==> X.Holds(p, a, b, n) {
      RV.SameCompare(p, a, b, n);
    }
    hide ShowsOperand, Compare, X.Holds, R.KindOf;
  }

  /** What a comparison that was not concretized evaluates to. */
  lemma {:induction false} CompareVal(s: Source, w: V.World, id: nat, l: nat)
    requires Fair(s, w, id) && 0 < l < |s.table| && IsLeaf(s.table, l) && s.table[l].op.ICmp? && l !in s.conc
    requires Buildable(s.table, s.conc, s.contents, l)
    ensures LabelVal(s, ByKind(w.arith), InputOf(w, id), l) == LabelOf(w, s.table, l)
  {
    hide Fair, LabelOf, NodeVal, NodeData, OperandVal, OperandOf, Buildable, Pure, IsLeaf, Sound;
    FairAt(s, w, id, l);
    PureOperands(s.table, l);
    NotFixed(s, l);
    OperandValIs(s, w, id, false, l);
    OperandValIs(s, w, id, true, l);
    OperatorVal(s, w, id, l);
  }

  /** An operand that was not concretized has the value of its label. */
  lemma {:induction false} SideIs(s: Source, w: V.World, id: nat, second: bool, l: nat)
    requires Fair(s, w, id) && 0 < l < |s.table| && IsLeaf(s.table, l) && s.table[l].op.ICmp?
    requires Buildable(s.table, s.conc, s.contents, l)
    ensures
      var v := Valuation(s, ByKind(w.arith), InputOf(w, id));
      var (fixed, k, c) := if second then (RightFixed(s.conc, l), s.table[l].l2, s.table[l].op2)
                           else (LeftFixed(s.conc, l), s.table[l].l1, s.table[l].op1);
      var side := if second then R.Rhs(s.table, v, l) else R.Lhs(s.table, v, l);
      !fixed ==> side == if k == 0 then c else V.Value(w, s.table, k)
  {
    hide Fair, Buildable, Pure, IsLeaf, Sound, LabelVal, V.Value, V.LabelBits;
    FairAt(s, w, id, l);
    PureOperands(s.table, l);
    if !IsFixed(s, second, l) {
      OperandBuildableToo(s, second, l);
      if OperandLabel(s, second, l) != 0 { LabelValIs(s, w, id, OperandLabel(s, second, l)); }
    }
  }
}
