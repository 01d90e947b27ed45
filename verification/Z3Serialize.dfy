/** solvers/z3-ts.cpp, serialize: the expression of one label from the cached expressions of the labels before it,
    together with the input bytes recorded for it. */
module Z3Serialize {
  import opened Base
  import opened Labels
  import opened Z3Expr

  /** expr_cache_ and deps_cache_.  A label that is not an expression has a null entry. */
  datatype Caches = Caches(exprs: seq<Option<Expr>>, deps: seq<set<Offset>>)

  /** The bytes recorded for the constant operand of a memcmp label. */
  type Contents = map<nat, seq<nat>>

  // ---- building blocks that may throw ----

  /** What Z3 hands out for an expression: nothing if its sorts do not fit. */
  function Built(e: Expr): Option<Expr> {
    if SortOf(e).Some? then Some(e) else None
  }

  /** get_cached_expr */
  function Cached(c: Caches, l: nat): Option<Expr> {
    if l < |c.exprs| then c.exprs[l] else None
  }

  /** The dependencies that get_cached_expr adds. */
  function CachedDeps(c: Caches, l: nat): set<Offset> {
    if l < |c.exprs| && c.exprs[l].Some? && l < |c.deps| then c.deps[l] else {}
  }

  /** `n` consecutive input bytes, the first one lowest. */
  function LoadExpr(first: Offset, n: nat): Expr {
    if n <= 1 then InputByte(first) else Join(InputByte((first.0, first.1 + n - 1)), LoadExpr(first, n - 1))
  }

  function LoadDeps(first: Offset, n: nat): set<Offset> {
    if n <= 1 then {first} else LoadDeps(first, n - 1) + {(first.0, first.1 + n - 1)}
  }

  /** The first `n` bytes of a buffer as one number, the first byte lowest. */
  function LittleEndian(bytes: seq<nat>, n: nat): nat {
    if n == 0 then 0
    else LittleEndian(bytes, n - 1) + Times(if n <= |bytes| then bytes[n - 1] % 256 else 0, Pow2(8 * (n - 1)))
  }

  /** read_concrete: at least one byte is read. */
  function ReadConcrete(m: Contents, l: nat, size: nat): Option<Expr> {
    if l in m then
      var n := if size == 0 then 1 else size;
      Some(BvVal(LittleEndian(m[l], n), 8 * n))
    else None
  }

  function ZextExpr(info: LabelInfo, base: Expr): Option<Expr> {
    var bits := if IsBool(base) then IteBit(base) else base;
    Built(Zext(bits, (info.size - Bits(bits)) % WRAP32))
  }

  /** Makes an operand of a common operator fit the 8-bit size. */
  function Fit(e: Expr, size: nat): Option<Expr> {
    if !IsBv(e) then Some(e)
    else
      var bits := Bits(e) % WRAP8;
      if bits > size then Built(Slice(e, (size - 1) % WRAP32, 0))
      else if bits < size then Built(Zext(e, size - bits))
      else Some(e)
  }

  /** The width used for constant operands; a Concat's constant takes what its other operand leaves. */
  function OperandSize(table: seq<LabelInfo>, info: LabelInfo, second: bool): nat {
    if info.op == Concat && info.l1 == 0 && info.l2 < |table| && !(second && info.l2 == 0) then
      (info.size - table[info.l2].size) % WRAP8
    else if second && info.op == Concat && info.l2 == 0 && info.l1 < |table| then
      (info.size - table[info.l1].size) % WRAP8
    else info.size % WRAP8
  }

  /** One operand of a common operator. */
  function Operand(table: seq<LabelInfo>, c: Caches, info: LabelInfo, second: bool): Option<Expr> {
    var l := if second then info.l2 else info.l1;
    var k := if second then info.op2 else info.op1;
    var size := OperandSize(table, info, second);
    if size == 0 then None
    else if l >= CONST_OFFSET then
      match Cached(c, l)
      case None => None
      case Some(e) => if info.op == Concat then Some(e) else Fit(e, size)
    else if info.size == 1 then Some(BoolVal(k == 1))
    else Some(BvVal(k, size))
  }

  predicate IsArith(op: Op) {
    op == Shl || op == LShr || op == AShr || op == Add || op == Sub || op == Mul
    || op == UDiv || op == SDiv || op == URem || op == SRem
  }

  function Combine(info: LabelInfo, x: Expr, y: Expr): Option<Expr> {
    if info.op == And || info.op == Or then
      Built(if info.size != 1 then Arith(info.op, x, y) else Logic(info.op, x, y))
    else if info.op == Xor then
      Built(if IsBool(x) then Logic(Xor, x, y) else Arith(Xor, x, y))
    else if IsArith(info.op) then Built(Arith(info.op, x, y))
    else if info.op.ICmp? then Built(Cmp(info.op.pred, x, y))
    else if info.op == Concat then Built(Join(y, x))
    else None
  }

  function CommonExpr(table: seq<LabelInfo>, c: Caches, info: LabelInfo): Option<Expr> {
    if info.op == Concat && info.l1 == 0 && info.l2 == 0 then None
    else
      match Operand(table, c, info, false)
      case None => None
      case Some(x) =>
        match Operand(table, c, info, true)
        case None => None
        case Some(y) => Combine(info, x, y)
  }

  function CommonDeps(table: seq<LabelInfo>, c: Caches, info: LabelInfo): set<Offset> {
    if info.op == Concat && info.l1 == 0 && info.l2 == 0 then {}
    else
      var first := if info.l1 >= CONST_OFFSET && OperandSize(table, info, false) != 0 then CachedDeps(c, info.l1) else {};
      if Operand(table, c, info, false).None? then first
      else first + (if info.l2 >= CONST_OFFSET && OperandSize(table, info, true) != 0 then CachedDeps(c, info.l2) else {})
  }

  function MemcmpFirst(m: Contents, c: Caches, l: nat, info: LabelInfo): Option<Expr> {
    if info.l1 >= CONST_OFFSET then Cached(c, info.l1) else ReadConcrete(m, l, info.size)
  }

  /** What serialize makes of label `l`: None when it throws, and otherwise the entry for the expression cache. */
  function Translate(table: seq<LabelInfo>, m: Contents, c: Caches, l: nat): Option<Option<Expr>>
    requires Ordered(table) && 0 < l < |table|
  {
    var info := table[l];
    match info.op
    case Input => Some(Some(InputByte((info.op2, info.op1))))
    case Load => Some(Some(LoadExpr((table[info.l1].op2, table[info.l1].op1), info.l2)))
    case ZExt => (match Cached(c, info.l1) case None => None case Some(e) => Entry(ZextExpr(info, e)))
    case SExt => (match Cached(c, info.l1) case None => None
                  case Some(e) => if IsBv(e) then Entry(Built(Sext(e, (info.size - Bits(e)) % WRAP32))) else None)
    case Trunc => (match Cached(c, info.l1) case None => None case Some(e) => Entry(Built(Slice(e, (info.size - 1) % WRAP32, 0))))
    case IntToPtr => Entry(Cached(c, info.l1))
    case Extract => (match Cached(c, info.l1) case None => None
                     case Some(e) => Entry(Built(Slice(e, (info.op2 + info.size - 1) % WRAP32, info.op2 % WRAP32))))
    case Not =>
      if info.l2 == 0 || info.size != 1 then None
      else (match Cached(c, info.l2) case None => None case Some(e) => Entry(Built(LNot(e))))
    case Neg =>
      if info.l2 == 0 then None
      else (match Cached(c, info.l2) case None => None case Some(e) => Entry(Built(Negative(e))))
    case Fmemcmp =>
      (match MemcmpFirst(m, c, l, info) case None => None
       case Some(x) =>
         if info.l2 < CONST_OFFSET then None
         else match Cached(c, info.l2) case None => None case Some(y) => Entry(Built(Differs(x, y))))
    case Alloca => Some(None)
    case Free => Some(None)
    case _ => Entry(CommonExpr(table, c, info))
  }

  predicate IsCommon(op: Op) {
    !(op.Input? || op.Load? || op.ZExt? || op.SExt? || op.Trunc? || op.IntToPtr? || op.Extract? || op.Not? || op.Neg?
      || op.Fmemcmp? || op.Alloca? || op.Free?)
  }

  lemma {:induction false} TranslateCommon(table: seq<LabelInfo>, m: Contents, c: Caches, l: nat)
    requires Ordered(table) && 0 < l < |table| && IsCommon(table[l].op)
    ensures Translate(table, m, c, l) == Entry(CommonExpr(table, c, table[l]))
  {
  }

  function Entry(e: Option<Expr>): Option<Option<Expr>> {
    if e.Some? then Some(e) else None
  }

  /** What has been recorded in the label's entry of the dependency cache by the time serialize is done with it,
      or throws. */
  function Deps(table: seq<LabelInfo>, m: Contents, c: Caches, l: nat): set<Offset>
    requires Ordered(table) && 0 < l < |table|
  {
    var info := table[l];
    match info.op
    case Input => {(info.op2, info.op1)}
    case Load => LoadDeps((table[info.l1].op2, table[info.l1].op1), info.l2)
    case ZExt => CachedDeps(c, info.l1)
    case SExt => CachedDeps(c, info.l1)
    case Trunc => CachedDeps(c, info.l1)
    case IntToPtr => CachedDeps(c, info.l1)
    case Extract => CachedDeps(c, info.l1)
    case Not => if info.l2 == 0 || info.size != 1 then {} else CachedDeps(c, info.l2)
    case Neg => if info.l2 == 0 then {} else CachedDeps(c, info.l2)
    case Fmemcmp =>
      var first := if info.l1 >= CONST_OFFSET then CachedDeps(c, info.l1) else {};
      if MemcmpFirst(m, c, l, info).None? || info.l2 < CONST_OFFSET then first else first + CachedDeps(c, info.l2)
    case Alloca => {}
    case Free => {}
    case _ => CommonDeps(table, c, info)
  }

  /** The round of serialize's loop for the next label: the dependency entry is appended first, and it stays when
      the round throws. */
  function Round(table: seq<LabelInfo>, m: Contents, c: Caches): Caches
    requires Ordered(table) && 0 < |c.exprs| < |table|
  {
    var l := |c.exprs|;
    var deps := c.deps + [Deps(table, m, c, l)];
    match Translate(table, m, c, l)
    case None => c.(deps := deps)
    case Some(entry) => Caches(c.exprs + [entry], deps)
  }

  // ---- what is recorded is exactly what is read ----

  ghost predicate EntryOk(c: Caches, l: nat)
    requires l < |c.exprs| && |c.exprs| <= |c.deps|
  {
    c.exprs[l].Some? ==> SortOf(c.exprs[l].value).Some? && Reads(c.exprs[l].value) == c.deps[l]
  }

  ghost predicate CachesOk(c: Caches) {
    && 0 < |c.exprs| <= |c.deps| && c.exprs[0] == None
    && forall l :: 0 <= l < |c.exprs| ==> EntryOk(c, l)
  }

  lemma {:induction false} LoadReads(first: Offset, n: nat)
    ensures Reads(LoadExpr(first, n)) == LoadDeps(first, n)
    ensures SortOf(LoadExpr(first, n)) == Some(BvSort(if n == 0 then 8 else 8 * n))
  {
    if n > 1 {
      LoadReads(first, n - 1);
      var high := InputByte((first.0, first.1 + n - 1));
      assert Bits(high) == 8 && Bits(LoadExpr(first, n - 1)) == 8 * (n - 1);
      assert Reads(high) == {(first.0, first.1 + n - 1)};
    }
  }

  lemma {:induction false} CachedReads(c: Caches, l: nat)
    requires CachesOk(c) && Cached(c, l).Some?
    ensures SortOf(Cached(c, l).value).Some? && Reads(Cached(c, l).value) == CachedDeps(c, l)
  {
    assert EntryOk(c, l);
  }

  lemma {:induction false} OperandReads(table: seq<LabelInfo>, c: Caches, info: LabelInfo, second: bool)
    requires CachesOk(c) && Operand(table, c, info, second).Some?
    ensures SortOf(Operand(table, c, info, second).value).Some?
    ensures
      var l := if second then info.l2 else info.l1;
      Reads(Operand(table, c, info, second).value) == if l >= CONST_OFFSET then CachedDeps(c, l) else {}
  {
    var l := if second then info.l2 else info.l1;
    if l >= CONST_OFFSET { CachedReads(c, l); }
  }

  lemma {:induction false} CombineReads(info: LabelInfo, x: Expr, y: Expr)
    requires Combine(info, x, y).Some?
    ensures SortOf(Combine(info, x, y).value).Some?
    ensures Reads(Combine(info, x, y).value) == Reads(x) + Reads(y)
  {
    hide SortOf, Reads;
    BinaryReads(info.op, x, y);
    if info.op.ICmp? { CompareReads(info.op.pred, x, y); }
  }

  lemma {:induction false} BinaryReads(op: Op, x: Expr, y: Expr)
    ensures Reads(Arith(op, x, y)) == Reads(Logic(op, x, y)) == Reads(x) + Reads(y)
    ensures Reads(Join(y, x)) == Reads(x) + Reads(y)
  {
  }

  lemma {:induction false} CompareReads(p: Predicate, x: Expr, y: Expr)
    ensures Reads(Cmp(p, x, y)) == Reads(x) + Reads(y)
  {
  }

  lemma {:induction false} CommonReads(table: seq<LabelInfo>, c: Caches, info: LabelInfo)
    requires CachesOk(c) && CommonExpr(table, c, info).Some?
    ensures SortOf(CommonExpr(table, c, info).value).Some?
    ensures Reads(CommonExpr(table, c, info).value) == CommonDeps(table, c, info)
  {
    var x, y := Operand(table, c, info, false).value, Operand(table, c, info, true).value;
    OperandReads(table, c, info, false);
    OperandReads(table, c, info, true);
    CombineReads(info, x, y);
    hide Combine;
  }

  /** The dependency set recorded for a label is exactly the set of input bytes its expression reads. */
  lemma {:induction false} TranslateReads(table: seq<LabelInfo>, m: Contents, c: Caches, l: nat)
    requires Ordered(table) && 0 < l < |table| && CachesOk(c)
    requires Translate(table, m, c, l).Some? && Translate(table, m, c, l).value.Some?
    ensures SortOf(Translate(table, m, c, l).value.value).Some?
    ensures Reads(Translate(table, m, c, l).value.value) == Deps(table, m, c, l)
  {
    var info := table[l];
    match info.op
    case Input =>
    case Load => LoadReads((table[info.l1].op2, table[info.l1].op1), info.l2);
    case ZExt => CachedReads(c, info.l1);
    case SExt => CachedReads(c, info.l1);
    case Trunc => CachedReads(c, info.l1);
    case IntToPtr => CachedReads(c, info.l1);
    case Extract => CachedReads(c, info.l1);
    case Not => CachedReads(c, info.l2);
    case Neg => CachedReads(c, info.l2);
    case Fmemcmp =>
      if info.l1 >= CONST_OFFSET { CachedReads(c, info.l1); }
      CachedReads(c, info.l2);
    case Alloca =>
    case Free =>
    case _ => CommonReads(table, c, info);
  }

  /** While both caches have the same length, every round keeps them matched, whether it throws or not. */
  lemma {:induction false} RoundOk(table: seq<LabelInfo>, m: Contents, c: Caches)
    requires Ordered(table) && 0 < |c.exprs| < |table| && CachesOk(c)
    ensures Translate(table, m, c, |c.exprs|).None? ==> CachesOk(Round(table, m, c))
    ensures |c.deps| == |c.exprs| ==> CachesOk(Round(table, m, c))
  {
    var l := |c.exprs|;
    var d := Round(table, m, c);
    if Translate(table, m, c, l).Some? {
      if Translate(table, m, c, l).value.Some? { TranslateReads(table, m, c, l); }
      hide Translate, Deps;
      if |c.deps| == |c.exprs| {
        forall k | 0 <= k < |d.exprs|
          ensures EntryOk(d, k)
        {
          if k < l { assert EntryOk(c, k); }
        }
      }
    } else {
      hide Translate, Deps;
      forall k | 0 <= k < |d.exprs|
        ensures EntryOk(d, k)
      {
        assert EntryOk(c, k);
      }
    }
  }

  /** `n` rounds of the loop, over as many calls of serialize as it takes. */
  function Rounds(table: seq<LabelInfo>, m: Contents, c: Caches, n: nat): Caches
    requires Ordered(table) && 0 < |c.exprs|
    decreases n
  {
    if n == 0 || |c.exprs| >= |table| then c else Rounds(table, m, Round(table, m, c), n - 1)
  }

  /** One more round at the end. */
  lemma {:induction false} RoundsSnoc(table: seq<LabelInfo>, m: Contents, c: Caches, n: nat)
    requires Ordered(table) && 0 < |c.exprs| && |Rounds(table, m, c, n).exprs| < |table|
    ensures |Rounds(table, m, c, n).exprs| > 0
    ensures Rounds(table, m, c, n + 1) == Round(table, m, Rounds(table, m, c, n))
    decreases n
  {
    hide Translate, Deps;
    if n > 0 && |c.exprs| < |table| { RoundsSnoc(table, m, Round(table, m, c), n - 1); }
  }
}
