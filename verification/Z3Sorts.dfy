/** Which labels serialize handles, in terms of labels alone: the sort of a label's expression, the bytes it reads, and
    what is asked of its operands. */
module Z3Sorts {
  import opened Base
  import opened Labels
  import opened Z3Expr
  import opened Z3Serialize
  import S = Z3Serialize
  import opened LabelValues
  import M = Z3Meaning

  // ---- by the labels ----

  /** A label whose expression is a truth value and not a bit-vector. */
  predicate IsTruth(table: seq<LabelInfo>, l: nat)
    requires Ordered(table) && l < |table|
    decreases l
  {
    l > 0 &&
    var info := table[l];
    match info.op
    case Not => true
    case ICmp(_) => true
    case And => info.size == 1
    case Or => info.size == 1
    case Xor => TruthOperand(table, l, false)
    case IntToPtr => IsTruth(table, info.l1)
    case _ => false
  }

  /** An operand that is a truth value; one-bit constants are. */
  predicate TruthOperand(table: seq<LabelInfo>, l: nat, second: bool)
    requires Ordered(table) && 0 < l < |table|
    decreases l, 0
  {
    var k := if second then table[l].l2 else table[l].l1;
    if k == 0 then table[l].size == 1 else IsTruth(table, k)
  }

  /** Bounds have no expression, and neither has the constant label. */
  predicate HasExpr(table: seq<LabelInfo>, l: nat) {
    0 < l < |table| && table[l].op != Alloca && table[l].op != Free
  }

  predicate IsVector(table: seq<LabelInfo>, l: nat)
    requires Ordered(table) && l < |table|
  {
    HasExpr(table, l) && !IsTruth(table, l)
  }

  function LabelSort(table: seq<LabelInfo>, l: nat): Sort
    requires Ordered(table) && l < |table|
  {
    if IsTruth(table, l) then BoolSort else BvSort(LabelBits(table, l))
  }

  function Nth(first: Offset, i: nat): Offset { (first.0, first.1 + i) }

  /** Consecutive bytes; at least one. */
  function Run(first: Offset, n: nat): set<Offset> {
    set i: nat | i < LoadSize(n) :: Nth(first, i)
  }

  /** The input bytes that can be reached from a label. */
  function LabelReads(table: seq<LabelInfo>, l: nat): set<Offset>
    requires Ordered(table) && l < |table|
    decreases l
  {
    if l == 0 then {}
    else
      var info := table[l];
      match info.op
      case Input => {(info.op2, info.op1)}
      case Load => Run((table[info.l1].op2, table[info.l1].op1), info.l2)
      case ZExt => LabelReads(table, info.l1)
      case SExt => LabelReads(table, info.l1)
      case Trunc => LabelReads(table, info.l1)
      case IntToPtr => LabelReads(table, info.l1)
      case Extract => LabelReads(table, info.l1)
      case Not => LabelReads(table, info.l2)
      case Neg => LabelReads(table, info.l2)
      case Alloca => {}
      case Free => {}
      case _ => LabelReads(table, info.l1) + LabelReads(table, info.l2)
  }

  /** Both operands are truth values or both are bit-vectors, as the operator takes them. */
  predicate SortsFit(info: LabelInfo, x: bool, y: bool) {
    && x == y
    && match info.op
       case And => x == (info.size == 1)
       case Or => x == (info.size == 1)
       case Xor => true
       case ICmp(p) => x ==> p == Bveq || p == Bvneq
       case _ => !x
  }

  /** The operands of an operator are constants or have expressions, of sorts that fit. */
  predicate OperandsAccepted(table: seq<LabelInfo>, l: nat)
    requires Ordered(table) && 0 < l < |table|
  {
    && (table[l].l1 == 0 || HasExpr(table, table[l].l1)) && (table[l].l2 == 0 || HasExpr(table, table[l].l2))
    && SortsFit(table[l], TruthOperand(table, l, false), TruthOperand(table, l, true))
  }

  /** A Concat joins two bit-vectors, or one with a constant of at least one bit; its size modulo 256 is not zero, unless
      its first operand is the constant. */
  predicate ConcatAccepted(table: seq<LabelInfo>, l: nat)
    requires Ordered(table) && 0 < l < |table|
  {
    var info := table[l];
    if info.l1 == 0 then IsVector(table, info.l2) && info.size != 1 && ConcatRest(table, info, info.l2) != 0
    else if info.l2 == 0 then
      IsVector(table, info.l1) && info.size != 1 && info.size % WRAP8 != 0 && ConcatRest(table, info, info.l1) != 0
    else IsVector(table, info.l1) && IsVector(table, info.l2) && info.size % WRAP8 != 0
  }

  /** What serialize asks of a label, given that it handled the labels before it.  A constant buffer of memcmp has to be
      recorded. */
  predicate Accepted(table: seq<LabelInfo>, m: Contents, l: nat)
    requires Ordered(table) && 0 < l < |table|
  {
    var info := table[l];
    match info.op
    case Input => true
    case Load => true
    case Alloca => true
    case Free => true
    case ZExt => HasExpr(table, info.l1)
    case IntToPtr => HasExpr(table, info.l1)
    case SExt => IsVector(table, info.l1)
    case Trunc => IsVector(table, info.l1) && info.size <= LabelBits(table, info.l1)
    case Extract => IsVector(table, info.l1) && info.op2 + info.size <= LabelBits(table, info.l1)
    case Not => info.size == 1 && IsTruth(table, info.l2)
    case Neg => IsVector(table, info.l2)
    case Fmemcmp =>
      HasExpr(table, info.l2) &&
      if info.l1 == 0 then l in m && LabelSort(table, info.l2) == BvSort(8 * LoadSize(info.size))
      else HasExpr(table, info.l1) && LabelSort(table, info.l1) == LabelSort(table, info.l2)
    case Concat => ConcatAccepted(table, l)
    case _ => M.IsOperator(info.op) && OperandsAccepted(table, l)
  }

  ghost predicate AllAccepted(table: seq<LabelInfo>, m: Contents, l: nat)
    requires Ordered(table) && l < |table|
  {
    forall k :: 0 < k <= l ==> Accepted(table, m, k)
  }

  ghost predicate TypedTo(table: seq<LabelInfo>, l: nat)
    requires Ordered(table) && l < |table|
  {
    forall k :: 0 < k <= l ==> M.Typed(table, k)
  }

  // ---- and by the caches ----

  /** The entry of the expression cache is what the labels say. */
  ghost predicate EntryIs(table: seq<LabelInfo>, m: Contents, entry: Option<Expr>, l: nat)
    requires Ordered(table) && 0 < l < |table|
  {
    && Accepted(table, m, l) && (entry.Some? <==> HasExpr(table, l))
    && (entry.Some? ==> SortOf(entry.value) == Some(LabelSort(table, l)) && Reads(entry.value) == LabelReads(table, l))
  }

  ghost predicate EntriesAre(table: seq<LabelInfo>, m: Contents, c: Caches)
    requires Ordered(table)
  {
    && 0 < |c.exprs| <= |table| && c.exprs[0] == None
    && forall l :: 0 < l < |c.exprs| && TypedTo(table, l) ==> EntryIs(table, m, c.exprs[l], l)
  }

  /** All labels before `l` are cached as the labels say. */
  ghost predicate Before(table: seq<LabelInfo>, m: Contents, c: Caches, l: nat)
    requires Ordered(table) && 0 < l < |table|
  {
    && |c.exprs| == l && c.exprs[0] == None
    && forall k :: 0 < k < l ==> EntryIs(table, m, c.exprs[k], k)
  }

  lemma {:induction false} CachedIs(table: seq<LabelInfo>, m: Contents, c: Caches, l: nat, k: nat)
    requires Ordered(table) && 0 < l < |table| && Before(table, m, c, l) && k < l
    ensures Cached(c, k).Some? <==> HasExpr(table, k)
    ensures Cached(c, k).Some? ==>
      SortOf(Cached(c, k).value) == Some(LabelSort(table, k)) && Reads(Cached(c, k).value) == LabelReads(table, k)
  {
    hide SortOf, Reads, LabelSort, LabelReads, Accepted;
    if k > 0 { assert EntryIs(table, m, c.exprs[k], k); }
  }

  lemma {:induction false} LoadRun(first: Offset, n: nat)
    ensures LoadDeps(first, n) == Run(first, n)
  {
    if n > 1 {
      LoadRun(first, n - 1);
      assert Run(first, n) == Run(first, n - 1) + {Nth(first, n - 1)};
    } else {
      assert Run(first, n) == {Nth(first, 0)};
    }
  }

  // ---- one label ----

  /** Translating a label succeeds if and only if it is accepted, with an expression of its sort. */
  ghost predicate SortIs(table: seq<LabelInfo>, m: Contents, c: Caches, l: nat)
    requires Ordered(table) && 0 < l < |table|
  {
    var r := Translate(table, m, c, l);
    && (r.Some? <==> Accepted(table, m, l))
    && (r.Some? ==> (r.value.Some? <==> HasExpr(table, l)))
    && (r.Some? && r.value.Some? ==> SortOf(r.value.value) == Some(LabelSort(table, l)))
  }

  lemma {:induction false} LeafSort(table: seq<LabelInfo>, m: Contents, c: Caches, l: nat)
    requires Ordered(table) && 0 < l < |table| && table[l].op in {Input, Load, Alloca, Free}
    ensures SortIs(table, m, c, l)
  {
    if table[l].op == Load { LoadReads((table[table[l].l1].op2, table[table[l].l1].op1), table[l].l2); }
  }

  /** Truth values have one bit. */
  lemma {:induction false} TruthBits(table: seq<LabelInfo>, l: nat)
    requires Ordered(table) && l < |table| && TypedTo(table, l) && IsTruth(table, l)
    ensures LabelBits(table, l) == 1
    decreases l
  {
    var info := table[l];
    assert M.Typed(table, l);
    if (info.op == IntToPtr || info.op == Xor) && info.l1 != 0 { TruthBits(table, info.l1); }
  }

  lemma {:induction false} OperandBits(table: seq<LabelInfo>, m: Contents, c: Caches, l: nat, k: nat)
    requires Ordered(table) && 0 < l < |table| && TypedTo(table, l) && Before(table, m, c, l) && k < l
    ensures Cached(c, k).Some? <==> HasExpr(table, k)
    ensures Cached(c, k).Some? ==>
      var e := Cached(c, k).value;
      && SortOf(e) == Some(LabelSort(table, k)) && Bits(e) == LabelBits(table, k)
      && (IsBool(e) <==> IsTruth(table, k)) && (IsBv(e) <==> !IsTruth(table, k))
  {
    hide Before, SortOf, IsTruth, LabelBits, M.Typed;
    CachedIs(table, m, c, l, k);
    if IsTruth(table, k) { TruthBits(table, k); }
  }

  lemma {:induction false} CastSort(table: seq<LabelInfo>, m: Contents, c: Caches, l: nat)
    requires Ordered(table) && 0 < l < |table| && TypedTo(table, l) && Before(table, m, c, l)
    requires table[l].op in {ZExt, SExt, IntToPtr}
    ensures SortIs(table, m, c, l)
  {
    hide *;
    var k := table[l].l1;
    TypedAt(table, l);
    SortAt(table, l);
    CastIs(table, m, c, l);
    OperandBits(table, m, c, l, k);
    if Cached(c, k).Some? && table[l].op != IntToPtr {
      ExtendedSort(Cached(c, k).value, table[l].size - LabelBits(table, k));
    }
    CastAccepted(table, m, c, l);
  }

  lemma {:induction false} CastIs(table: seq<LabelInfo>, m: Contents, c: Caches, l: nat)
    requires Ordered(table) && 0 < l < |table| && M.Typed(table, l) && table[l].op in {ZExt, SExt, IntToPtr}
    ensures table[l].l1 < l && (table[l].op != IntToPtr ==> LabelBits(table, table[l].l1) <= table[l].size < WRAP32)
  {
    hide LabelBits;
  }

  lemma {:induction false} CastAccepted(table: seq<LabelInfo>, m: Contents, c: Caches, l: nat)
    requires Ordered(table) && 0 < l < |table| && table[l].op in {ZExt, SExt, IntToPtr} && table[l].l1 < l
    requires table[l].op != IntToPtr ==> LabelBits(table, table[l].l1) <= table[l].size < WRAP32
    requires Cached(c, table[l].l1).Some? <==> HasExpr(table, table[l].l1)
    requires LabelSort(table, l) == if table[l].op == IntToPtr then LabelSort(table, table[l].l1) else BvSort(table[l].size)
    requires Cached(c, table[l].l1).Some? ==>
      var (e, k) := (Cached(c, table[l].l1).value, table[l].l1);
      && SortOf(e) == Some(LabelSort(table, k)) && Bits(e) == LabelBits(table, k)
      && (IsBool(e) <==> IsTruth(table, k)) && (IsBv(e) <==> !IsTruth(table, k))
      && (table[l].op != IntToPtr ==>
            var n := table[l].size - LabelBits(table, k);
            && (IsBool(e) ==> Bits(IteBit(e)) == 1 == Bits(e) && SortOf(Zext(IteBit(e), n)) == Some(BvSort(1 + n)))
            && (IsBv(e) ==> SortOf(Zext(e, n)) == Some(BvSort(Bits(e) + n)) == SortOf(Sext(e, n))))
    ensures SortIs(table, m, c, l)
  {
    hide SortOf, Cached, LabelBits, LabelSort, IsTruth;
    var info := table[l];
    if info.op != IntToPtr { ModSmall(info.size - LabelBits(table, info.l1), WRAP32); }
  }

  lemma {:induction false} SliceSort(table: seq<LabelInfo>, m: Contents, c: Caches, l: nat)
    requires Ordered(table) && 0 < l < |table| && TypedTo(table, l) && Before(table, m, c, l)
    requires table[l].op in {Trunc, Extract}
    ensures SortIs(table, m, c, l)
  {
    hide *;
    var info := table[l];
    var lo := if info.op == Trunc then 0 else info.op2;
    TypedAt(table, l);
    SortAt(table, l);
    SliceIs(table, m, c, l, lo);
    OperandBits(table, m, c, l, info.l1);
    if Cached(c, info.l1).Some? { SlicedSort(Cached(c, info.l1).value, lo + info.size - 1, lo); }
    SliceAccepted(table, m, c, l, lo);
  }

  lemma {:induction false} SliceIs(table: seq<LabelInfo>, m: Contents, c: Caches, l: nat, lo: nat)
    requires Ordered(table) && 0 < l < |table| && M.Typed(table, l) && table[l].op in {Trunc, Extract}
    requires lo == if table[l].op == Trunc then 0 else table[l].op2
    ensures table[l].size > 0 && table[l].l1 < l
    ensures Translate(table, m, c, l) ==
      match Cached(c, table[l].l1) case None => None case Some(e) => Entry(Built(Slice(e, lo + table[l].size - 1, lo)))
  {
    ModSmall(lo + table[l].size - 1, WRAP32);
    ModSmall(lo, WRAP32);
    hide Built, LabelBits;
  }

  lemma {:induction false} SliceAccepted(table: seq<LabelInfo>, m: Contents, c: Caches, l: nat, lo: nat)
    requires Ordered(table) && 0 < l < |table| && table[l].op in {Trunc, Extract} && table[l].size > 0 && table[l].l1 < l
    requires lo == if table[l].op == Trunc then 0 else table[l].op2
    requires Translate(table, m, c, l) ==
      match Cached(c, table[l].l1) case None => None case Some(e) => Entry(Built(Slice(e, lo + table[l].size - 1, lo)))
    requires Cached(c, table[l].l1).Some? <==> HasExpr(table, table[l].l1)
    requires Cached(c, table[l].l1).Some? ==>
      var (e, hi) := (Cached(c, table[l].l1).value, lo + table[l].size - 1);
      && (Built(Slice(e, hi, lo)).Some? <==> !IsTruth(table, table[l].l1) && hi < LabelBits(table, table[l].l1))
      && (Built(Slice(e, hi, lo)).Some? ==> SortOf(Slice(e, hi, lo)) == Some(BvSort(table[l].size)))
    requires LabelSort(table, l) == BvSort(table[l].size)
    ensures SortIs(table, m, c, l)
  {
    hide Translate, SortOf, Cached, LabelBits, LabelSort, IsTruth;
  }

  lemma {:induction false} NegationSort(table: seq<LabelInfo>, m: Contents, c: Caches, l: nat)
    requires Ordered(table) && 0 < l < |table| && TypedTo(table, l) && Before(table, m, c, l)
    requires table[l].op in {Not, Neg}
    ensures SortIs(table, m, c, l)
  {
    OperandBits(table, m, c, l, table[l].l2);
    hide Before, Cached, Reads, LabelReads, TypedTo;
  }

  lemma {:induction false} MemcmpSort(table: seq<LabelInfo>, m: Contents, c: Caches, l: nat)
    requires Ordered(table) && 0 < l < |table| && TypedTo(table, l) && Before(table, m, c, l) && table[l].op == Fmemcmp
    ensures SortIs(table, m, c, l)
  {
    hide Before, Cached, Reads, LabelReads, TypedTo, LabelSort, SortOf, IsTruth, LabelBits;
    var info := table[l];
    OperandBits(table, m, c, l, info.l1);
    OperandBits(table, m, c, l, info.l2);
    SortAt(table, l);
    var x, y := MemcmpFirst(m, c, l, info), Cached(c, info.l2);
    ConstantSorts(8 * LoadSize(info.size));
    if x.Some? && y.Some? { DiffersSort(x.value, y.value); }
  }

  /** An operand that fits the width of its operator. */
  lemma {:induction false} FitSort(e: Expr, size: nat)
    requires SortOf(e).Some? && 0 < size < WRAP8 && Bits(e) < WRAP8
    ensures Fit(e, size).Some?
    ensures SortOf(Fit(e, size).value) == if IsBool(e) then Some(BoolSort) else Some(BvSort(size))
  {
  }

  lemma {:induction false} OperandSort(table: seq<LabelInfo>, m: Contents, c: Caches, l: nat, second: bool)
    requires Ordered(table) && 0 < l < |table| && TypedTo(table, l) && Before(table, m, c, l) && M.IsOperator(table[l].op)
    ensures
      var (info, k) := (table[l], if second then table[l].l2 else table[l].l1);
      var e := S.Operand(table, c, info, second);
      && (e.Some? <==> k == 0 || HasExpr(table, k))
      && (e.Some? ==> SortOf(e.value) == Some(if TruthOperand(table, l, second) then BoolSort else BvSort(info.size)))
  {
    hide Before, Cached, Reads, LabelReads, TypedTo, Fit, SortOf, IsTruth, LabelBits;
    var (info, k) := (table[l], if second then table[l].l2 else table[l].l1);
    OperandBits(table, m, c, l, k);
    OperatorTyped(table, l);
    if k != 0 && HasExpr(table, k) { FitSort(Cached(c, k).value, info.size); }
    ConstantSorts(info.size);
  }

  lemma {:induction false} ConstantSorts(bits: nat)
    requires bits > 0
    ensures forall v :: SortOf(BvVal(v, bits)) == Some(BvSort(bits))
    ensures forall b :: SortOf(BoolVal(b)) == Some(BoolSort)
  {
  }

  lemma {:induction false} TypedAt(table: seq<LabelInfo>, l: nat)
    requires Ordered(table) && 0 < l < |table| && TypedTo(table, l)
    ensures M.Typed(table, l)
  {
  }

  lemma {:induction false} CombineSort(info: LabelInfo, x: Expr, y: Expr, a: bool, b: bool)
    requires M.IsOperator(info.op) && info.size > 0
    requires SortOf(x) == Some(if a then BoolSort else BvSort(info.size))
    requires SortOf(y) == Some(if b then BoolSort else BvSort(info.size))
    ensures Combine(info, x, y).Some? <==> SortsFit(info, a, b)
    ensures Combine(info, x, y).Some? ==>
      SortOf(Combine(info, x, y).value) == Some(if a || info.op.ICmp? then BoolSort else BvSort(info.size))
  {
    hide SortOf;
    BinarySort(info.op, x, y);
    if info.op.ICmp? { CompareSort(info.op.pred, x, y); }
  }

  lemma {:induction false} BinarySort(op: Op, x: Expr, y: Expr)
    requires SortOf(x).Some? && SortOf(y).Some?
    ensures SortOf(Arith(op, x, y)) == if SortOf(x) == SortOf(y) && IsBv(x) then SortOf(x) else None
    ensures SortOf(Logic(op, x, y)) == if SortOf(x) == SortOf(y) == Some(BoolSort) then Some(BoolSort) else None
  {
  }

  lemma {:induction false} CompareSort(p: Predicate, x: Expr, y: Expr)
    requires SortOf(x).Some? && SortOf(y).Some?
    ensures SortOf(Cmp(p, x, y))
      == if SortOf(x) == SortOf(y) && (IsBv(x) || p == Bveq || p == Bvneq) then Some(BoolSort) else None
  {
  }

  lemma {:induction false} OperatorSort(table: seq<LabelInfo>, m: Contents, c: Caches, l: nat)
    requires Ordered(table) && 0 < l < |table| && TypedTo(table, l) && Before(table, m, c, l) && M.IsOperator(table[l].op)
    ensures SortIs(table, m, c, l)
  {
    hide *;
    var info := table[l];
    OperandSort(table, m, c, l, false);
    OperandSort(table, m, c, l, true);
    OperatorTyped(table, l);
    var x, y := S.Operand(table, c, info, false), S.Operand(table, c, info, true);
    if x.Some? && y.Some? {
      CombineSort(info, x.value, y.value, TruthOperand(table, l, false), TruthOperand(table, l, true));
      OperatorIs(table, l);
    }
    OperatorAccepted(table, m, c, l);
  }

  lemma {:induction false} OperatorTyped(table: seq<LabelInfo>, l: nat)
    requires Ordered(table) && 0 < l < |table| && TypedTo(table, l) && M.IsOperator(table[l].op)
    ensures M.Typed(table, l) && 0 < table[l].size < WRAP8 && table[l].l1 < |table| && table[l].l2 < |table|
    ensures LabelBits(table, table[l].l1) < WRAP8 && LabelBits(table, table[l].l2) < WRAP8
  {
    hide LabelBits;
    TypedAt(table, l);
  }

  /** The definitions at an operator. */
  lemma {:induction false} OperatorAccepted(table: seq<LabelInfo>, m: Contents, c: Caches, l: nat)
    requires Ordered(table) && 0 < l < |table| && M.IsOperator(table[l].op)
    requires
      var (info, x, y) := (table[l], S.Operand(table, c, table[l], false), S.Operand(table, c, table[l], true));
      && (x.Some? <==> info.l1 == 0 || HasExpr(table, info.l1)) && (y.Some? <==> info.l2 == 0 || HasExpr(table, info.l2))
      && (x.Some? && y.Some? ==>
            && (Combine(info, x.value, y.value).Some? <==> OperandsAccepted(table, l))
            && (Combine(info, x.value, y.value).Some? ==>
                  SortOf(Combine(info, x.value, y.value).value) == Some(LabelSort(table, l))))
    ensures SortIs(table, m, c, l)
  {
    hide S.Operand, Combine, SortOf, LabelSort, TruthOperand;
    TranslateCommon(table, m, c, l);
  }

  lemma {:induction false} OperatorIs(table: seq<LabelInfo>, l: nat)
    requires Ordered(table) && 0 < l < |table| && M.IsOperator(table[l].op)
    ensures OperandsAccepted(table, l) <==>
      && (table[l].l1 == 0 || HasExpr(table, table[l].l1)) && (table[l].l2 == 0 || HasExpr(table, table[l].l2))
      && SortsFit(table[l], TruthOperand(table, l, false), TruthOperand(table, l, true))
    ensures
      var truth := TruthOperand(table, l, false) || table[l].op.ICmp?;
      OperandsAccepted(table, l) ==> LabelSort(table, l) == if truth then BoolSort else BvSort(table[l].size)
  {
  }

  lemma {:induction false} ConcatOperandSort(table: seq<LabelInfo>, m: Contents, c: Caches, l: nat, second: bool)
    requires Ordered(table) && 0 < l < |table| && TypedTo(table, l) && Before(table, m, c, l) && table[l].op == Concat
    requires !(table[l].l1 == 0 && table[l].l2 == 0)
    ensures
      var (info, k, other) := if second then (table[l], table[l].l2, table[l].l1) else (table[l], table[l].l1, table[l].l2);
      var e := S.Operand(table, c, info, second);
      && (e.Some? <==> OperandSize(table, info, second) != 0 && (k == 0 || HasExpr(table, k)))
      && (e.Some? ==> (IsBv(e.value) <==> if k == 0 then info.size != 1 else !IsTruth(table, k)))
      && (e.Some? && IsBv(e.value) ==> Bits(e.value) == if k == 0 then ConcatRest(table, info, other) else LabelBits(table, k))
  {
    hide Before, Cached, Reads, LabelReads, TypedTo;
    OperandBits(table, m, c, l, if second then table[l].l2 else table[l].l1);
  }

  lemma {:induction false} ConcatSort(table: seq<LabelInfo>, m: Contents, c: Caches, l: nat)
    requires Ordered(table) && 0 < l < |table| && TypedTo(table, l) && Before(table, m, c, l) && table[l].op == Concat
    ensures SortIs(table, m, c, l)
  {
    hide Before, Cached, Reads, LabelReads, TypedTo, S.Operand, SortOf, IsTruth, LabelBits, LabelSort, OperandSize;
    var info := table[l];
    TranslateCommon(table, m, c, l);
    SortAt(table, l);
    OperandSizes(table, info);
    if info.l1 != 0 || info.l2 != 0 {
      ConcatOperandSort(table, m, c, l, false);
      ConcatOperandSort(table, m, c, l, true);
      var x, y := S.Operand(table, c, info, false), S.Operand(table, c, info, true);
      if x.Some? && y.Some? { JoinSort(y.value, x.value); }
    }
  }

  lemma {:induction false} OperandSizes(table: seq<LabelInfo>, info: LabelInfo)
    requires info.op == Concat && info.l1 < |table| && info.l2 < |table|
    ensures OperandSize(table, info, false) == if info.l1 == 0 then ConcatRest(table, info, info.l2) else info.size % WRAP8
    ensures OperandSize(table, info, true) ==
      if info.l2 == 0 then ConcatRest(table, info, info.l1)
      else if info.l1 == 0 then ConcatRest(table, info, info.l2) else info.size % WRAP8
  {
  }

  // the sorts of the expressions that are built
  lemma {:induction false} JoinSort(high: Expr, low: Expr)
    ensures Built(Join(high, low)).Some? <==> IsBv(high) && IsBv(low)
    ensures IsBv(high) && IsBv(low) ==> SortOf(Join(high, low)) == Some(BvSort(Bits(high) + Bits(low)))
  {
  }

  lemma {:induction false} DiffersSort(x: Expr, y: Expr)
    requires SortOf(x).Some? && SortOf(y).Some?
    ensures Built(Differs(x, y)).Some? <==> SortOf(x) == SortOf(y)
    ensures SortOf(x) == SortOf(y) ==> SortOf(Differs(x, y)) == Some(BvSort(32))
  {
  }

  lemma {:induction false} SlicedSort(e: Expr, hi: nat, lo: nat)
    requires lo <= hi
    ensures Built(Slice(e, hi, lo)).Some? <==> IsBv(e) && hi < Bits(e)
    ensures IsBv(e) && hi < Bits(e) ==> SortOf(Slice(e, hi, lo)) == Some(BvSort(hi - lo + 1))
  {
  }

  lemma {:induction false} ExtendedSort(e: Expr, k: nat)
    requires SortOf(e).Some?
    ensures IsBool(e) ==> Bits(IteBit(e)) == 1 == Bits(e) && SortOf(Zext(IteBit(e), k)) == Some(BvSort(1 + k))
    ensures IsBv(e) ==> SortOf(Zext(e, k)) == Some(BvSort(Bits(e) + k)) == SortOf(Sext(e, k))
    ensures IsBv(e) <==> !IsBool(e)
  {
  }

  /** The sort of a label in terms of its operands. */
  lemma {:induction false} SortAt(table: seq<LabelInfo>, l: nat)
    requires Ordered(table) && 0 < l < |table|
    ensures
      var info := table[l];
      && (info.op in {ZExt, SExt, Trunc, Extract} ==> LabelSort(table, l) == BvSort(info.size))
      && (info.op == IntToPtr ==> LabelSort(table, l) == LabelSort(table, info.l1))
      && (info.op == Fmemcmp ==> LabelSort(table, l) == BvSort(32))
      && (info.op == Concat ==> LabelSort(table, l) == BvSort(
            (if info.l1 == 0 then ConcatRest(table, info, info.l2) else LabelBits(table, info.l1))
            + (if info.l2 == 0 then ConcatRest(table, info, info.l1) else LabelBits(table, info.l2))))
  {
  }

  /** Given the labels before it, serialize handles a label if and only if it is accepted. */
  lemma {:induction false} TranslatesIff(table: seq<LabelInfo>, m: Contents, c: Caches, l: nat)
    requires Ordered(table) && 0 < l < |table| && TypedTo(table, l) && Before(table, m, c, l)
    ensures SortIs(table, m, c, l)
  {
    hide Before, TypedTo, SortIs;
    var op := table[l].op;
    if op in {Input, Load, Alloca, Free} { LeafSort(table, m, c, l); }
    else if op in {ZExt, SExt, IntToPtr} { CastSort(table, m, c, l); }
    else if op in {Trunc, Extract} { SliceSort(table, m, c, l); }
    else if op in {Not, Neg} { NegationSort(table, m, c, l); }
    else if op == Fmemcmp { MemcmpSort(table, m, c, l); }
    else if op == Concat { ConcatSort(table, m, c, l); }
    else if M.IsOperator(op) { OperatorSort(table, m, c, l); }
    else { NoOperator(table, m, c, l); }
  }

  lemma {:induction false} NoOperator(table: seq<LabelInfo>, m: Contents, c: Caches, l: nat)
    requires Ordered(table) && 0 < l < |table| && IsCommon(table[l].op) && table[l].op != Concat && !M.IsOperator(table[l].op)
    ensures SortIs(table, m, c, l)
  {
    hide S.Operand;
    TranslateCommon(table, m, c, l);
  }

  // ---- the bytes it reads ----

  lemma {:induction false} DepsAre(table: seq<LabelInfo>, m: Contents, c: Caches, l: nat)
    requires Ordered(table) && 0 < l < |table| && CachesOk(c) && Before(table, m, c, l)
    requires Translate(table, m, c, l).Some? && Translate(table, m, c, l).value.Some?
    ensures Reads(Translate(table, m, c, l).value.value) == LabelReads(table, l)
  {
    hide Before, CachedDeps, CachesOk, Reads, Run, LoadDeps;
    TranslateReads(table, m, c, l);
    var info := table[l];
    DepsOf(table, m, c, l, info.l1);
    DepsOf(table, m, c, l, info.l2);
    if info.op == Load { LoadRun((table[info.l1].op2, table[info.l1].op1), info.l2); }
    if IsCommon(info.op) { CommonDepsAre(table, m, c, l); }
    hide CommonExpr, CommonDeps, Built, SortOf, MemcmpFirst, ZextExpr;
  }

  lemma {:induction false} CommonDepsAre(table: seq<LabelInfo>, m: Contents, c: Caches, l: nat)
    requires Ordered(table) && 0 < l < |table| && IsCommon(table[l].op) && CommonExpr(table, c, table[l]).Some?
    requires forall k :: k == table[l].l1 || k == table[l].l2 ==> CachedDeps(c, k) == LabelReads(table, k)
    ensures CommonDeps(table, c, table[l]) == LabelReads(table, l)
  {
    hide CachedDeps, Combine, Fit;
  }

  lemma {:induction false} DepsOf(table: seq<LabelInfo>, m: Contents, c: Caches, l: nat, k: nat)
    requires Ordered(table) && 0 < l < |table| && CachesOk(c) && Before(table, m, c, l) && k < l
    ensures HasExpr(table, k) ==> CachedDeps(c, k) == LabelReads(table, k)
    ensures !HasExpr(table, k) ==> CachedDeps(c, k) == {} == LabelReads(table, k)
  {
    CachedIs(table, m, c, l, k);
    if HasExpr(table, k) { CachedReads(c, k); }
    hide Before, CachesOk, Reads;
  }

  // ---- rounds ----

  /** What is cached stays as the labels say. */
  lemma {:induction false} RoundEntries(table: seq<LabelInfo>, m: Contents, c: Caches)
    requires Ordered(table) && 0 < |c.exprs| < |table| && EntriesAre(table, m, c) && CachesOk(c)
    ensures EntriesAre(table, m, Round(table, m, c))
    ensures TypedTo(table, |c.exprs|) ==>
      (|Round(table, m, c).exprs| > |c.exprs| <==> Accepted(table, m, |c.exprs|))
  {
    hide Translate, Deps, CachesOk, EntryIs, Accepted, TypedTo;
    var l, d := |c.exprs|, Round(table, m, c);
    if TypedTo(table, l) {
      EntriesBefore(table, m, c);
      TranslatesIff(table, m, c, l);
      if Translate(table, m, c, l).Some? {
        if Translate(table, m, c, l).value.Some? { DepsAre(table, m, c, l); }
        EntryMade(table, m, c, l);
      }
    }
  }

  lemma {:induction false} EntryMade(table: seq<LabelInfo>, m: Contents, c: Caches, l: nat)
    requires Ordered(table) && 0 < l < |table| && SortIs(table, m, c, l) && Translate(table, m, c, l).Some?
    requires Translate(table, m, c, l).value.Some? ==> Reads(Translate(table, m, c, l).value.value) == LabelReads(table, l)
    ensures EntryIs(table, m, Translate(table, m, c, l).value, l)
  {
    hide Translate, Accepted, Reads, LabelReads, SortOf, LabelSort, HasExpr;
  }

  lemma {:induction false} EntriesBefore(table: seq<LabelInfo>, m: Contents, c: Caches)
    requires Ordered(table) && 0 < |c.exprs| < |table| && EntriesAre(table, m, c) && TypedTo(table, |c.exprs|)
    ensures Before(table, m, c, |c.exprs|)
  {
    hide EntryIs, M.Typed;
    forall k | 0 < k < |c.exprs| ensures EntryIs(table, m, c.exprs[k], k) {
      assert TypedTo(table, k);
    }
  }

  lemma {:induction false} TypedBelow(table: seq<LabelInfo>, l: nat, k: nat)
    requires Ordered(table) && l < |table| && TypedTo(table, l) && k <= l
    ensures TypedTo(table, k)
  {
  }

  /** A label that is not accepted stops serialize. */
  lemma {:induction false} Refused(table: seq<LabelInfo>, m: Contents, l: nat, k: nat)
    requires Ordered(table) && 0 < k <= l < |table| && !Accepted(table, m, k)
    ensures !AllAccepted(table, m, l)
  {
  }

  /** Everything up to a cached label was accepted. */
  lemma {:induction false} Reached(table: seq<LabelInfo>, m: Contents, c: Caches, l: nat)
    requires Ordered(table) && EntriesAre(table, m, c) && 0 < l < |c.exprs| && TypedTo(table, l)
    ensures AllAccepted(table, m, l) && EntryIs(table, m, c.exprs[l], l)
  {
    hide Accepted, SortOf, Reads, LabelSort, LabelReads, HasExpr, M.Typed;
    forall k | 0 < k <= l ensures Accepted(table, m, k) {
      TypedBelow(table, l, k);
      assert EntryIs(table, m, c.exprs[k], k);
    }
  }

  /** More contents accept more. */
  lemma {:induction false} MoreContents(table: seq<LabelInfo>, m: Contents, c: Caches, k: nat, buf: seq<nat>)
    requires Ordered(table) && EntriesAre(table, m, c) && k !in m
    ensures EntriesAre(table, m[k := buf], c)
  {
    hide SortOf, Reads, LabelSort, LabelReads;
    forall l | 0 < l < |c.exprs| && TypedTo(table, l) ensures EntryIs(table, m[k := buf], c.exprs[l], l) {
      assert EntryIs(table, m, c.exprs[l], l);
      AcceptsMore(table, m, k, buf, l);
    }
  }

  lemma {:induction false} AcceptsMore(table: seq<LabelInfo>, m: Contents, k: nat, buf: seq<nat>, l: nat)
    requires Ordered(table) && 0 < l < |table| && Accepted(table, m, l)
    ensures Accepted(table, m[k := buf], l)
  {
  }
}
