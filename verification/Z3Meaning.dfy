/** The expressions built by serialize have the values of their labels. */
module Z3Meaning {
  import opened Base
  import opened Labels
  import opened Z3Expr
  import S = Z3Serialize
  import opened LabelValues

  // ---- values stay within their width ----

  predicate IsTruth(e: Expr) {
    e.BoolVal? || e.LNot? || e.Differs? || e.Logic? || e.Cmp? || e.Equals? || e.NotEquals?
  }

  lemma {:induction false} TruthRange(m: ArithMeaning, input: Input, e: Expr)
    requires SortOf(e).Some? && IsTruth(e)
    ensures Bits(e) > 0 && Eval(m, input, e) < Pow2(Bits(e))
  {
    OneBit(Eval(m, input, e) == 1, Bits(e));
    hide Pow2, Holds;
  }

  /** The value of a well-sorted expression fits its sort. */
  lemma {:induction false} EvalRange(m: ArithMeaning, input: Input, e: Expr)
    requires SortOf(e).Some?
    ensures Bits(e) > 0 && Eval(m, input, e) < Pow2(Bits(e))
  {
    hide Pow2, Times, SignExtend, Holds, LogicValue;
    if IsTruth(e) {
      TruthRange(m, input, e);
      return;
    }
    match e
    case InputByte(_) => Pow2Of8();
    case BvVal(_, _) =>
    case IteBit(x) => EvalRange(m, input, x);
    case Zext(x, k) => EvalRange(m, input, x); Pow2Monotone(Bits(x), Bits(x) + k);
    case Sext(x, k) => EvalRange(m, input, x); SignExtendRange(Eval(m, input, x), Bits(x), k);
    case Slice(_, _, _) =>
    case Join(h, l) =>
      EvalRange(m, input, h);
      EvalRange(m, input, l);
      JoinRange(Eval(m, input, h), Eval(m, input, l), Bits(h), Bits(l));
    case Negative(x) => EvalRange(m, input, x);
    case Arith(_, x, _) => EvalRange(m, input, x);
    case _ =>
  }

  // ---- the labels this holds for ----

  /** Arithmetic, logic and comparisons. */
  predicate IsOperator(op: Op) {
    op.ICmp? || op in {Add, Sub, Mul, UDiv, SDiv, URem, SRem, Shl, LShr, AShr, And, Or, Xor}
  }

  /** What the compiler guarantees about sizes: casts go the right way, and arithmetic, logic and comparisons have between
      1 and 255 bits.  Nothing is asked of reads, joins and memcmp, whose operands may be buffers of any size, nor of
      labels that get no expression. */
  predicate Typed(table: seq<LabelInfo>, l: nat)
    requires Ordered(table) && 0 < l < |table|
  {
    var info := table[l];
    match info.op
    case ZExt => LabelBits(table, info.l1) <= info.size < WRAP32
    case SExt => LabelBits(table, info.l1) <= info.size < WRAP32
    case Trunc => 0 < info.size < WRAP32
    case Extract => 0 < info.size && info.op2 + info.size < WRAP32
    case _ => IsOperator(info.op) ==> OperandsTyped(table, l)
  }

  predicate OperandsTyped(table: seq<LabelInfo>, l: nat)
    requires Ordered(table) && 0 < l < |table|
  {
    var info := table[l];
    && 0 < info.size < WRAP8
    && LabelBits(table, info.l1) < WRAP8 && LabelBits(table, info.l2) < WRAP8
    && (info.op == Xor && LabelBits(table, info.l1) == 1 ==> info.size == 1)
  }

  /** Exclusive or of two bits, whichever way it is expressed. */
  ghost predicate OneBitXor(m: ArithMeaning) {
    forall x: nat, y: nat :: x <= 1 && y <= 1 ==> m(Xor, 1, x, y) % 2 == LogicValue(Xor, x, y)
  }

  /** The recorded buffers are the ones the labels were made from. */
  ghost predicate ContentsAgree(w: World, table: seq<LabelInfo>, m: S.Contents) {
    forall l :: l in m && l < |table| ==> w.content(l) == S.LittleEndian(m[l], LoadSize(table[l].size))
  }

  /** The expression has the value and the width of the label. */
  ghost predicate Means(w: World, table: seq<LabelInfo>, e: Expr, l: nat)
    requires Ordered(table) && l < |table|
  {
    SortOf(e).Some? && Bits(e) == LabelBits(table, l) && Eval(w.arith, w.input, e) == Value(w, table, l)
  }

  ghost predicate AllMean(w: World, table: seq<LabelInfo>, c: S.Caches)
    requires Ordered(table)
  {
    && 0 < |c.exprs| <= |table| && c.exprs[0] == None
    && forall l :: 0 <= l < |c.exprs| && c.exprs[l].Some? ==> Means(w, table, c.exprs[l].value, l)
  }

  // ---- the cases ----

  lemma {:induction false} LoadMeaning(w: World, first: Offset, n: nat)
    ensures SortOf(S.LoadExpr(first, n)) == Some(BvSort(8 * LoadSize(n)))
    ensures Eval(w.arith, w.input, S.LoadExpr(first, n)) == Bytes(w.input, first, n)
  {
    if n > 1 {
      LoadMeaning(w, first, n - 1);
      var high := InputByte((first.0, first.1 + n - 1));
      assert SortOf(high) == Some(BvSort(8));
      assert Eval(w.arith, w.input, high) == w.input((first.0, first.1 + n - 1)) % 256;
    }
  }

  lemma {:induction false} ZextMeaning(w: World, table: seq<LabelInfo>, e: Expr, l: nat)
    requires Ordered(table) && 0 < l < |table| && table[l].op == ZExt && Typed(table, l)
    requires Means(w, table, e, table[l].l1) && S.ZextExpr(table[l], e).Some?
    ensures Means(w, table, S.ZextExpr(table[l], e).value, l)
  {
    hide Pow2, Value, LabelBits, Eval, SortOf;
    var bits := if IsBool(e) then IteBit(e) else e;
    AsBits(w, e);
    ZextSame(w, bits, (table[l].size - Bits(e)) % WRAP32);
    ExtendedIs(w, table, l);
    ModSmall(table[l].size - Bits(e), WRAP32);
  }

  /** A boolean as one bit. */
  lemma {:induction false} AsBits(w: World, e: Expr)
    requires SortOf(e).Some?
    ensures
      var bits := if IsBool(e) then IteBit(e) else e;
      IsBv(bits) && Bits(bits) == Bits(e) && Eval(w.arith, w.input, bits) == Eval(w.arith, w.input, e)
  {
    hide Pow2;
  }

  /** The definitions at a zero extension. */
  lemma {:induction false} ExtendedIs(w: World, table: seq<LabelInfo>, l: nat)
    requires Ordered(table) && 0 < l < |table| && table[l].op == ZExt
    ensures LabelBits(table, l) == table[l].size && Value(w, table, l) == Value(w, table, table[l].l1)
  {
  }

  lemma {:induction false} SliceLow(w: World, e: Expr, n: nat)
    requires IsBv(e) && 0 < n < Bits(e)
    ensures SortOf(Slice(e, n - 1, 0)) == Some(BvSort(n))
    ensures Eval(w.arith, w.input, Slice(e, n - 1, 0)) == Eval(w.arith, w.input, e) % Pow2(n)
  {
    hide Pow2;
    DivOne(Eval(w.arith, w.input, e));
  }

  lemma {:induction false} ZextSame(w: World, e: Expr, k: nat)
    requires IsBv(e)
    ensures SortOf(Zext(e, k)) == Some(BvSort(Bits(e) + k)) && Eval(w.arith, w.input, Zext(e, k)) == Eval(w.arith, w.input, e)
  {
  }

  /** Fitting an operand cuts its value to the operator's width. */
  lemma {:induction false} FitMeaning(w: World, e: Expr, n: nat)
    requires SortOf(e).Some? && 0 < n < WRAP8 && Bits(e) < WRAP8 && S.Fit(e, n).Some?
    ensures var f := S.Fit(e, n).value;
      && SortOf(f).Some? && (IsBool(e) ==> f == e) && (IsBv(e) ==> SortOf(f) == Some(BvSort(n)))
      && Eval(w.arith, w.input, f) == Eval(w.arith, w.input, e) % Pow2(n)
  {
    hide Pow2, SortOf, Eval;
    var v := Eval(w.arith, w.input, e);
    EvalRange(w.arith, w.input, e);
    if IsBv(e) && Bits(e) > n {
      SliceLow(w, e, n);
    } else {
      if IsBv(e) { ZextSame(w, e, n - Bits(e)); }
      Pow2Monotone(Bits(e), n);
      ModSmall(v, Pow2(n));
    }
  }

  lemma {:induction false} OperandMeaning(w: World, table: seq<LabelInfo>, c: S.Caches, l: nat, second: bool)
    requires Ordered(table) && 0 < l < |table| && Typed(table, l) && AllMean(w, table, c)
    requires IsOperator(table[l].op)
    requires S.Operand(table, c, table[l], second).Some?
    ensures var e := S.Operand(table, c, table[l], second).value;
      && SortOf(e).Some? && (IsBv(e) ==> Bits(e) == table[l].size)
      && (IsBool(e) ==> Operand(w, table, l, second) <= 1)
      && Eval(w.arith, w.input, e) == Operand(w, table, l, second)
  {
    hide Pow2, Value, LabelBits, S.Fit;
    Pow2Small();
    var info := table[l];
    var k := if second then info.l2 else info.l1;
    assert S.OperandSize(table, info, second) == info.size;
    if k >= CONST_OFFSET {
      var e := S.Cached(c, k).value;
      assert Means(w, table, e, k);
      FitMeaning(w, e, info.size);
      EvalRange(w.arith, w.input, e);
      if IsBool(e) { Pow2Monotone(1, info.size); }
    }
  }

  /** The operands of label `l` as the expressions `x` and `y`. */
  ghost predicate OperandsMean(w: World, table: seq<LabelInfo>, l: nat, x: Expr, y: Expr)
    requires Ordered(table) && 0 < l < |table|
  {
    && SortOf(x).Some? && (IsBv(x) ==> Bits(x) == table[l].size) && (IsBool(x) ==> Operand(w, table, l, false) <= 1)
    && SortOf(y).Some? && (IsBv(y) ==> Bits(y) == table[l].size) && (IsBool(y) ==> Operand(w, table, l, true) <= 1)
    && Eval(w.arith, w.input, x) == Operand(w, table, l, false)
    && Eval(w.arith, w.input, y) == Operand(w, table, l, true)
  }

  lemma {:induction false} ArithMeans(w: World, table: seq<LabelInfo>, l: nat, x: Expr, y: Expr)
    requires Ordered(table) && 0 < l < |table| && OperandsMean(w, table, l, x, y)
    requires
      var info := table[l];
      (info.size != 1 && (info.op == And || info.op == Or)) || info.op == Xor || S.IsArith(info.op)
    requires SortOf(Arith(table[l].op, x, y)).Some?
    ensures Means(w, table, Arith(table[l].op, x, y), l)
  {
    hide Pow2, Operand;
  }

  lemma {:induction false} LogicMeans(w: World, table: seq<LabelInfo>, l: nat, x: Expr, y: Expr)
    requires Ordered(table) && 0 < l < |table| && OperandsMean(w, table, l, x, y) && OneBitXor(w.arith)
    requires table[l].size == 1 && (table[l].op == And || table[l].op == Or || table[l].op == Xor)
    requires SortOf(Logic(table[l].op, x, y)).Some?
    ensures Means(w, table, Logic(table[l].op, x, y), l)
  {
    assert Pow2(1) == 2;
    hide Operand;
  }

  lemma {:induction false} CmpMeans(w: World, table: seq<LabelInfo>, l: nat, x: Expr, y: Expr)
    requires Ordered(table) && 0 < l < |table| && OperandsMean(w, table, l, x, y)
    requires table[l].op.ICmp? && SortOf(Cmp(table[l].op.pred, x, y)).Some?
    ensures Means(w, table, Cmp(table[l].op.pred, x, y), l)
  {
    hide Pow2, Operand;
  }

  lemma {:induction false} CombineMeaning(w: World, table: seq<LabelInfo>, l: nat, x: Expr, y: Expr)
    requires Ordered(table) && 0 < l < |table| && OperandsMean(w, table, l, x, y) && OneBitXor(w.arith)
    requires table[l].op != Concat && S.Combine(table[l], x, y).Some?
    requires table[l].op == Xor && IsBool(x) ==> table[l].size == 1
    ensures Means(w, table, S.Combine(table[l], x, y).value, l)
  {
    var info := table[l];
    if info.op.ICmp? { CmpMeans(w, table, l, x, y); }
    else if info.size == 1 && (info.op == And || info.op == Or) { LogicMeans(w, table, l, x, y); }
    else if info.op == Xor && IsBool(x) { LogicMeans(w, table, l, x, y); }
    else { ArithMeans(w, table, l, x, y); }
  }

  lemma {:induction false} CommonMeaning(w: World, table: seq<LabelInfo>, c: S.Caches, l: nat)
    requires Ordered(table) && 0 < l < |table| && Typed(table, l) && AllMean(w, table, c) && OneBitXor(w.arith)
    requires table[l].op != Concat && table[l].op != ZExt && table[l].op != SExt && table[l].op != Trunc
    requires table[l].op != Extract && table[l].op != Input && table[l].op != Load && table[l].op != Fmemcmp
    requires S.CommonExpr(table, c, table[l]).Some?
    ensures Means(w, table, S.CommonExpr(table, c, table[l]).value, l)
  {
    var x, y := S.Operand(table, c, table[l], false).value, S.Operand(table, c, table[l], true).value;
    assert S.Combine(table[l], x, y).Some? && IsOperator(table[l].op);
    OperandMeaning(w, table, c, l, false);
    OperandMeaning(w, table, c, l, true);
    if table[l].op == Xor && IsBool(x) { XorOfBooleans(w, table, c, l); }
    hide S.Operand, Operand;
    CombineMeaning(w, table, l, x, y);
  }

  lemma {:induction false} XorOfBooleans(w: World, table: seq<LabelInfo>, c: S.Caches, l: nat)
    requires Ordered(table) && 0 < l < |table| && Typed(table, l) && AllMean(w, table, c) && table[l].op == Xor
    requires S.Operand(table, c, table[l], false).Some? && IsBool(S.Operand(table, c, table[l], false).value)
    ensures table[l].size == 1
  {
    var info := table[l];
    if info.l1 >= CONST_OFFSET {
      var e := S.Cached(c, info.l1).value;
      assert Means(w, table, e, info.l1);
      FitMeaning(w, e, info.size);
    }
  }

  /** An operand of a Concat: the expression of its label, or a constant filling the rest. */
  ghost predicate ConcatPart(w: World, table: seq<LabelInfo>, info: LabelInfo, e: Expr, k: nat, fill: nat, other: nat)
    requires Ordered(table) && k < |table| && other < |table|
  {
    IsBv(e) && if k != 0 then Means(w, table, e, k) else e == BvVal(fill, ConcatRest(table, info, other))
  }

  /** The low operand of a Concat is its first one. */
  lemma {:induction false} JoinMeans(w: World, table: seq<LabelInfo>, l: nat, x: Expr, y: Expr)
    requires Ordered(table) && 0 < l < |table| && table[l].op == Concat && !(table[l].l1 == 0 && table[l].l2 == 0)
    requires ConcatPart(w, table, table[l], x, table[l].l1, table[l].op1, table[l].l2)
    requires ConcatPart(w, table, table[l], y, table[l].l2, table[l].op2, table[l].l1)
    ensures Means(w, table, Join(y, x), l)
  {
    hide Pow2, Times;
    var info := table[l];
    assert SortOf(Join(y, x)) == Some(BvSort(Bits(y) + Bits(x)));
    if info.l1 == 0 {
      assert Bits(x) == ConcatRest(table, info, info.l2);
    } else if info.l2 == 0 {
      assert y == BvVal(info.op2, ConcatRest(table, info, info.l1));
      assert SortOf(y) == Some(BvSort(ConcatRest(table, info, info.l1)));
      assert Bits(y) == ConcatRest(table, info, info.l1);
      assert Eval(w.arith, w.input, y) == info.op2 % Pow2(ConcatRest(table, info, info.l1));
    }
    assert Bits(Join(y, x)) == LabelBits(table, l);
    assert Eval(w.arith, w.input, Join(y, x)) == Times(Eval(w.arith, w.input, y), Pow2(Bits(x))) + Eval(w.arith, w.input, x);
    assert Eval(w.arith, w.input, Join(y, x)) == Value(w, table, l);
  }

  lemma {:induction false} ConcatOperand(w: World, table: seq<LabelInfo>, c: S.Caches, l: nat, second: bool)
    requires Ordered(table) && 0 < l < |table| && AllMean(w, table, c) && table[l].op == Concat
    requires !(table[l].l1 == 0 && table[l].l2 == 0)
    requires S.Operand(table, c, table[l], second).Some? && IsBv(S.Operand(table, c, table[l], second).value)
    ensures
      var info := table[l];
      ConcatPart(w, table, info, S.Operand(table, c, info, second).value, if second then info.l2 else info.l1,
                 if second then info.op2 else info.op1, if second then info.l1 else info.l2)
  {
    hide Pow2, Value, LabelBits, Eval, Means;
  }

  lemma {:induction false} ConcatMeaning(w: World, table: seq<LabelInfo>, c: S.Caches, l: nat)
    requires Ordered(table) && 0 < l < |table| && AllMean(w, table, c) && table[l].op == Concat
    requires S.CommonExpr(table, c, table[l]).Some?
    ensures Means(w, table, S.CommonExpr(table, c, table[l]).value, l)
  {
    hide Pow2, Value, LabelBits, Eval, Means, S.Operand, ConcatPart, AllMean;
    var info := table[l];
    var x, y := S.Operand(table, c, info, false).value, S.Operand(table, c, info, true).value;
    assert S.CommonExpr(table, c, info) == Some(Join(y, x)) && IsBv(x) && IsBv(y);
    ConcatOperand(w, table, c, l, false);
    ConcatOperand(w, table, c, l, true);
    JoinMeans(w, table, l, x, y);
  }

  lemma {:induction false} MemcmpMeaning(w: World, table: seq<LabelInfo>, m: S.Contents, c: S.Caches, l: nat)
    requires Ordered(table) && 0 < l < |table| && AllMean(w, table, c) && ContentsAgree(w, table, m)
    requires table[l].op == Fmemcmp && S.Translate(table, m, c, l).Some?
    ensures Means(w, table, S.Translate(table, m, c, l).value.value, l)
  {
    var info := table[l];
    var x, y := S.MemcmpFirst(m, c, l, info).value, S.Cached(c, info.l2).value;
    assert Means(w, table, y, info.l2);
    if info.l1 >= CONST_OFFSET { assert Means(w, table, x, info.l1); }
    else { ConcreteMeaning(m[l], LoadSize(info.size)); }
  }

  lemma {:induction false} ConcreteMeaning(bytes: seq<nat>, n: nat)
    ensures S.LittleEndian(bytes, n) < Pow2(8 * n)
    ensures S.LittleEndian(bytes, n) % Pow2(8 * n) == S.LittleEndian(bytes, n)
  {
    if n > 0 {
      ConcreteMeaning(bytes, n - 1);
      var b := if n <= |bytes| then bytes[n - 1] % 256 else 0;
      Pow2Of8();
      JoinRange(b, S.LittleEndian(bytes, n - 1), 8, 8 * (n - 1));
      assert 8 + 8 * (n - 1) == 8 * n;
    }
    ModSmall(S.LittleEndian(bytes, n), Pow2(8 * n));
  }

  /** serialize gives every label an expression with the label's value, from expressions that have theirs. */
  lemma {:induction false} TranslateMeaning(w: World, table: seq<LabelInfo>, m: S.Contents, c: S.Caches, l: nat)
    requires Ordered(table) && 0 < l < |table| && Typed(table, l) && AllMean(w, table, c)
    requires OneBitXor(w.arith) && ContentsAgree(w, table, m)
    requires S.Translate(table, m, c, l).Some? && S.Translate(table, m, c, l).value.Some?
    ensures Means(w, table, S.Translate(table, m, c, l).value.value, l)
  {
    var info := table[l];
    if S.IsCommon(info.op) { S.TranslateCommon(table, m, c, l); }
    hide S.Translate, S.CommonExpr, Value, LabelBits, Means;
    if info.op == Concat { ConcatMeaning(w, table, c, l); }
    else if S.IsCommon(info.op) { CommonMeaning(w, table, c, l); }
    else if info.op == Fmemcmp { MemcmpMeaning(w, table, m, c, l); }
    else if info.op == Alloca || info.op == Free { NoMeaning(table, m, c, l); }
    else if info.op == Input || info.op == Load { InputMeaning(w, table, m, c, l); }
    else if info.op == Trunc || info.op == Extract { SliceMeaning(w, table, m, c, l); }
    else { CastMeaning(w, table, m, c, l); }
  }

  lemma {:induction false} NoMeaning(table: seq<LabelInfo>, m: S.Contents, c: S.Caches, l: nat)
    requires Ordered(table) && 0 < l < |table| && (table[l].op == Alloca || table[l].op == Free)
    ensures S.Translate(table, m, c, l) == Some(None)
  {
  }

  lemma {:induction false} InputMeaning(w: World, table: seq<LabelInfo>, m: S.Contents, c: S.Caches, l: nat)
    requires Ordered(table) && 0 < l < |table| && (table[l].op == Input || table[l].op == Load)
    ensures S.Translate(table, m, c, l).Some? && S.Translate(table, m, c, l).value.Some?
    ensures Means(w, table, S.Translate(table, m, c, l).value.value, l)
  {
    InputMeans(w, table, l);
    hide Pow2, Value, LabelBits, Means, S.LoadExpr;
  }

  lemma {:induction false} SliceMeaning(w: World, table: seq<LabelInfo>, m: S.Contents, c: S.Caches, l: nat)
    requires Ordered(table) && 0 < l < |table| && Typed(table, l) && AllMean(w, table, c)
    requires (table[l].op == Trunc || table[l].op == Extract) && S.Translate(table, m, c, l).Some?
    ensures Means(w, table, S.Translate(table, m, c, l).value.value, l)
  {
    hide Pow2, Value, LabelBits, Means, SortOf;
    var e := S.Cached(c, table[l].l1).value;
    if table[l].op == Trunc { TruncMeaning(w, table, e, l); } else { ExtractMeaning(w, table, e, l); }
  }

  lemma {:induction false} CastMeaning(w: World, table: seq<LabelInfo>, m: S.Contents, c: S.Caches, l: nat)
    requires Ordered(table) && 0 < l < |table| && Typed(table, l) && AllMean(w, table, c)
    requires table[l].op in {ZExt, SExt, IntToPtr, Not, Neg} && S.Translate(table, m, c, l).Some?
    ensures Means(w, table, S.Translate(table, m, c, l).value.value, l)
  {
    hide Pow2, Value, LabelBits, Means, SortOf;
    var info := table[l];
    if info.op == ZExt { ZextMeaning(w, table, S.Cached(c, info.l1).value, l); }
    else if info.op == SExt { SextMeaning(w, table, S.Cached(c, info.l1).value, l); }
    else if info.op == IntToPtr { UnaryMeaning(w, table, S.Cached(c, info.l1).value, l, info.l1); }
    else { UnaryMeaning(w, table, S.Cached(c, info.l2).value, l, info.l2); }
  }

  lemma {:induction false} InputMeans(w: World, table: seq<LabelInfo>, l: nat)
    requires Ordered(table) && 0 < l < |table| && (table[l].op == Input || table[l].op == Load)
    ensures table[l].op == Input ==> Means(w, table, InputByte((table[l].op2, table[l].op1)), l)
    ensures table[l].op == Load ==>
      Means(w, table, S.LoadExpr((table[table[l].l1].op2, table[table[l].l1].op1), table[l].l2), l)
  {
    LoadMeaning(w, (table[table[l].l1].op2, table[table[l].l1].op1), table[l].l2);
    hide Pow2;
  }

  lemma {:induction false} SextMeaning(w: World, table: seq<LabelInfo>, e: Expr, l: nat)
    requires Ordered(table) && 0 < l < |table| && Typed(table, l) && table[l].op == SExt && Means(w, table, e, table[l].l1)
    requires S.Built(Sext(e, (table[l].size - Bits(e)) % WRAP32)).Some?
    ensures Means(w, table, Sext(e, (table[l].size - Bits(e)) % WRAP32), l)
  {
    hide Pow2;
    ModSmall(table[l].size - Bits(e), WRAP32);
  }

  lemma {:induction false} UnaryMeaning(w: World, table: seq<LabelInfo>, e: Expr, l: nat, k: nat)
    requires Ordered(table) && 0 < l < |table| && k < |table| && Means(w, table, e, k)
    ensures table[l].op == IntToPtr && k == table[l].l1 ==> Means(w, table, e, l)
    ensures table[l].op == Not && k == table[l].l2 && SortOf(LNot(e)).Some? ==> Means(w, table, LNot(e), l)
    ensures table[l].op == Neg && k == table[l].l2 && SortOf(Negative(e)).Some? ==> Means(w, table, Negative(e), l)
  {
    hide Pow2;
  }

  lemma {:induction false} TruncMeaning(w: World, table: seq<LabelInfo>, e: Expr, l: nat)
    requires Ordered(table) && 0 < l < |table| && Typed(table, l) && table[l].op == Trunc && Means(w, table, e, table[l].l1)
    requires SortOf(Slice(e, table[l].size - 1, 0)).Some?
    ensures Means(w, table, Slice(e, table[l].size - 1, 0), l)
  {
    DivOne(Value(w, table, table[l].l1));
    hide Pow2;
  }

  lemma {:induction false} ExtractMeaning(w: World, table: seq<LabelInfo>, e: Expr, l: nat)
    requires Ordered(table) && 0 < l < |table| && Typed(table, l) && table[l].op == Extract && Means(w, table, e, table[l].l1)
    requires SortOf(Slice(e, table[l].op2 + table[l].size - 1, table[l].op2)).Some?
    ensures Means(w, table, Slice(e, table[l].op2 + table[l].size - 1, table[l].op2), l)
  {
    hide Pow2;
  }

  /** Throughout a run, every cached expression has the value of its label. */
  lemma {:induction false} RoundMeans(w: World, table: seq<LabelInfo>, m: S.Contents, c: S.Caches)
    requires Ordered(table) && 0 < |c.exprs| < |table| && Typed(table, |c.exprs|) && AllMean(w, table, c)
    requires OneBitXor(w.arith) && ContentsAgree(w, table, m)
    ensures AllMean(w, table, S.Round(table, m, c))
  {
    hide S.Translate, S.Deps, Means, Typed, OneBitXor, ContentsAgree;
    var l := |c.exprs|;
    if S.Translate(table, m, c, l).Some? && S.Translate(table, m, c, l).value.Some? {
      TranslateMeaning(w, table, m, c, l);
    }
  }

  /** However many labels serialize works off, every cached expression has the value of its label. */
  lemma {:induction false} RoundsMean(w: World, table: seq<LabelInfo>, m: S.Contents, c: S.Caches, n: nat)
    requires Ordered(table) && AllMean(w, table, c) && OneBitXor(w.arith) && ContentsAgree(w, table, m)
    requires forall l :: 0 < l < |table| ==> Typed(table, l)
    ensures AllMean(w, table, S.Rounds(table, m, c, n))
    decreases n
  {
    hide Typed, Means, S.Round;
    if n > 0 && |c.exprs| < |table| {
      assert Typed(table, |c.exprs|);
      RoundMeans(w, table, m, c);
      RoundsMean(w, table, m, S.Round(table, m, c), n - 1);
    }
  }
}
