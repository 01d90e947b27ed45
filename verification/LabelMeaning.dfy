/** Labels made by __taint_union stand for the operation they were asked for: canonical order, erased operands,
    simplification and sharing change no value. */
module LabelMeaning {
  import opened Base
  import opened Labels
  import opened Z3Expr
  import opened LabelValues
  import opened LabelTable

  // ---- machine arithmetic ----

  function BitOf(op: Op, x: nat, y: nat): nat {
    match op
    case And => B(x == 1 && y == 1)
    case Or => B(x == 1 || y == 1)
    case _ => B(x != y)
  }

  /** And, or and exclusive or, bit by bit. */
  function Bitwise(op: Op, x: nat, y: nat): nat
    decreases x + y
  {
    if x == 0 && y == 0 then 0 else 2 * Bitwise(op, x / 2, y / 2) + BitOf(op, x % 2, y % 2)
  }

  /** The operators that __taint_union simplifies. */
  predicate IsMachine(op: Op) {
    op in {Add, Sub, Mul, Shl, LShr, AShr, And, Or, Xor}
  }

  /** What they compute on `n` bits. */
  function Machine(op: Op, n: nat, x: nat, y: nat): int {
    match op
    case Add => x + y
    case Sub => x - y
    case Mul => x * y
    case Shl => x * Pow2(y)
    case LShr => x / Pow2(y)
    case AShr => Signed(x, n) / Pow2(y)
    case _ => Bitwise(op, x, y)
  }

  ghost predicate Standard(m: ArithMeaning) {
    forall op, n: nat, x: nat, y: nat :: IsMachine(op) ==> m(op, n, x, y) % Pow2(n) == Machine(op, n, x, y) % Pow2(n)
  }

  lemma {:induction false} BitwiseSwap(op: Op, x: nat, y: nat)
    ensures Bitwise(op, x, y) == Bitwise(op, y, x)
    decreases x + y
  {
    if x != 0 || y != 0 { BitwiseSwap(op, x / 2, y / 2); }
  }

  lemma {:induction false} BitwiseZero(y: nat)
    ensures Bitwise(And, 0, y) == 0 && Bitwise(Or, 0, y) == y && Bitwise(Xor, 0, y) == y
  {
    if y != 0 { BitwiseZero(y / 2); }
  }

  lemma {:induction false} BitwiseOnes(n: nat, y: nat)
    requires y < Pow2(n)
    ensures Bitwise(And, Pow2(n) - 1, y) == y && Bitwise(Or, Pow2(n) - 1, y) == Pow2(n) - 1
  {
    if n > 0 {
      BitwiseOnes(n - 1, y / 2);
      assert (Pow2(n) - 1) / 2 == Pow2(n - 1) - 1 && (Pow2(n) - 1) % 2 == 1;
    }
  }

  lemma {:induction false} XorSelf(x: nat)
    ensures Bitwise(Xor, x, x) == 0
  {
    if x != 0 { XorSelf(x / 2); }
  }

  /** On one bit the bitwise operators are the logical ones. */
  lemma {:induction false} OneBitLogic(op: Op, x: nat, y: nat)
    requires op == And || op == Or || op == Xor
    requires x <= 1 && y <= 1
    ensures Bitwise(op, x, y) == LogicValue(op, x, y)
  {
    assert Bitwise(op, 0, 0) == 0;
  }

  // ---- values of labels ----

  /** The node a call asks for, as if it were simply appended. */
  function NodeValue(w: World, table: seq<LabelInfo>, a: LabelInfo): nat
    requires Ordered(table + [a])
  {
    Value(w, table + [a], |table|)
  }

  ghost predicate SameUpTo(s: seq<LabelInfo>, t: seq<LabelInfo>, l: nat) {
    && Ordered(s) && Ordered(t) && l < |s| && l < |t|
    && forall k :: 0 <= k <= l ==> s[k] == t[k]
  }

  /** Entries that differ at most in the concrete values of symbolic operands. */
  predicate SameShape(x: LabelInfo, y: LabelInfo) {
    && x.op == y.op && x.size == y.size && x.l1 == y.l1 && x.l2 == y.l2
    && (x.l1 == 0 ==> x.op1 == y.op1) && (x.l2 == 0 ==> x.op2 == y.op2)
    && (x.op == Input ==> x == y) && (x.op == Extract ==> x.op2 == y.op2)
  }

  ghost predicate SameNodes(w: World, s: seq<LabelInfo>, i: nat, t: seq<LabelInfo>, j: nat) {
    && Ordered(s) && Ordered(t) && 0 < i < |s| && 0 < j < |t| && SameShape(s[i], t[j])
    && SameOperand(w, s, t, s[i].l1) && SameOperand(w, s, t, s[i].l2)
  }

  lemma {:induction false} SameBits(w: World, s: seq<LabelInfo>, i: nat, t: seq<LabelInfo>, j: nat)
    requires SameNodes(w, s, i, t, j)
    ensures LabelBits(s, i) == LabelBits(t, j)
    ensures Operand(w, s, i, false) == Operand(w, t, j, false) && Operand(w, s, i, true) == Operand(w, t, j, true)
  {
    hide Pow2, Value;
  }

  /** A value depends on the entry and on the operands; a memcmp with a constant also on the label itself. */
  lemma {:induction false} SameNode(w: World, s: seq<LabelInfo>, i: nat, t: seq<LabelInfo>, j: nat)
    requires SameNodes(w, s, i, t, j)
    requires s[i].op == Fmemcmp && s[i].l1 == 0 ==> i == j
    ensures LabelBits(s, i) == LabelBits(t, j) && Value(w, s, i) == Value(w, t, j)
  {
    hide Value, LabelBits, SameNodes;
    SameBits(w, s, i, t, j);
    SameValue(w, s, i, t, j);
    SameArith(w, s, i, t, j);
  }

  predicate IsArithmetic(op: Op) {
    op !in {Input, Load, ZExt, IntToPtr, SExt, Trunc, Extract, Not, Neg, Fmemcmp, Concat}
  }

  lemma {:induction false} SameValue(w: World, s: seq<LabelInfo>, i: nat, t: seq<LabelInfo>, j: nat)
    requires SameNodes(w, s, i, t, j)
    requires s[i].op == Fmemcmp && s[i].l1 == 0 ==> i == j
    ensures !IsArithmetic(s[i].op) ==> Value(w, s, i) == Value(w, t, j)
  {
    hide Operand, LabelBits, Pow2, Bytes, SignExtend, Holds, LogicValue, Times;
  }

  /** Operators that take their operands cut to their own width. */
  lemma {:induction false} SameArith(w: World, s: seq<LabelInfo>, i: nat, t: seq<LabelInfo>, j: nat)
    requires SameNodes(w, s, i, t, j)
    requires Operand(w, s, i, false) == Operand(w, t, j, false) && Operand(w, s, i, true) == Operand(w, t, j, true)
    ensures IsArithmetic(s[i].op) ==> Value(w, s, i) == Value(w, t, j)
  {
    hide Operand, LabelBits, Pow2, Bytes, SignExtend, Holds, LogicValue, Times, SameOperand;
  }

  ghost predicate SameOperand(w: World, s: seq<LabelInfo>, t: seq<LabelInfo>, k: nat)
    requires Ordered(s) && Ordered(t)
  {
    && k < |s| && k < |t| && s[k] == t[k]
    && LabelBits(s, k) == LabelBits(t, k) && Value(w, s, k) == Value(w, t, k)
  }

  /** Values and widths depend on earlier entries only. */
  lemma {:induction false} ValuePrefix(w: World, s: seq<LabelInfo>, t: seq<LabelInfo>, l: nat)
    requires SameUpTo(s, t, l)
    ensures LabelBits(s, l) == LabelBits(t, l) && Value(w, s, l) == Value(w, t, l)
    decreases l
  {
    if l > 0 {
      assert s[l] == t[l];
      ValuePrefix(w, s, t, s[l].l1);
      ValuePrefix(w, s, t, s[l].l2);
      hide Value, LabelBits;
      SameNode(w, s, l, t, l);
    }
  }

  /** The compiler widens with extensions.  Extensions and extracts of constants are constants. */
  predicate Widens(table: seq<LabelInfo>, l: nat)
    requires Ordered(table) && 0 < l < |table|
  {
    && (IsExtension(table[l].op) ==> 0 < table[l].l1 && LabelBits(table, table[l].l1) <= table[l].size)
    && (table[l].op == Extract ==> 0 < table[l].l1)
  }

  ghost predicate AllWiden(table: seq<LabelInfo>)
    requires Ordered(table)
  {
    forall l :: 0 < l < |table| ==> Widens(table, l)
  }

  lemma {:induction false} BytesRange(input: Input, first: Offset, n: nat)
    ensures Bytes(input, first, n) < Pow2(8 * LoadSize(n))
  {
    Pow2Of8();
    if n > 1 {
      BytesRange(input, first, n - 1);
      JoinRange(input((first.0, first.1 + n - 1)) % 256, Bytes(input, first, n - 1), 8, 8 * (n - 1));
      assert 8 + 8 * (n - 1) == 8 * n;
    }
  }

  /** The value of a label fits its width. */
  lemma {:induction false} ValueRange(w: World, table: seq<LabelInfo>, l: nat)
    requires Ordered(table) && AllWiden(table) && l < |table|
    ensures Value(w, table, l) < Pow2(LabelBits(table, l))
    decreases l
  {
    hide Pow2, Holds, Operand, Bytes, SignExtend, Times;
    Pow2Small();
    if l == 0 { return; }
    var info := table[l];
    ValueRange(w, table, info.l1);
    ValueRange(w, table, info.l2);
    assert Widens(table, l);
    match info.op
    case Input => Pow2Of8();
    case Load => BytesRange(w.input, (table[info.l1].op2, table[info.l1].op1), info.l2);
    case ZExt => Pow2Monotone(LabelBits(table, info.l1), info.size);
    case SExt =>
      var k := info.size - LabelBits(table, info.l1);
      SignExtendRange(Value(w, table, info.l1), LabelBits(table, info.l1), k);
    case Fmemcmp => OneBit(Value(w, table, l) == 1, 32);
    case Concat => ConcatRange(w, table, l);
    case _ =>
  }

  lemma {:induction false} ConcatRange(w: World, table: seq<LabelInfo>, l: nat)
    requires Ordered(table) && 0 < l < |table| && table[l].op == Concat
    requires Value(w, table, table[l].l1) < Pow2(LabelBits(table, table[l].l1))
    requires Value(w, table, table[l].l2) < Pow2(LabelBits(table, table[l].l2))
    ensures Value(w, table, l) < Pow2(LabelBits(table, l))
  {
    hide Pow2, Times;
    var info := table[l];
    var r1, r2 := ConcatRest(table, info, info.l1), ConcatRest(table, info, info.l2);
    if info.l1 == 0 {
      JoinRange(Value(w, table, info.l2), info.op1 % Pow2(r2), LabelBits(table, info.l2), r2);
      JoinRange(0, info.op1 % Pow2(r2), r2, r2);
    } else if info.l2 == 0 {
      JoinRange(info.op2 % Pow2(r1), Value(w, table, info.l1), r1, LabelBits(table, info.l1));
    } else {
      JoinRange(Value(w, table, info.l2), Value(w, table, info.l1), LabelBits(table, info.l2), LabelBits(table, info.l1));
    }
  }

  // ---- the simplified operators ----

  /** An operand whose label has the operator's width, or whose constant fits it. */
  predicate Fits(table: seq<LabelInfo>, l: nat, c: nat, size: nat)
    requires Ordered(table)
  {
    l < |table| && if l == 0 then c < Pow2(size) else LabelBits(table, l) == size && !IsBounds(table, l)
  }

  /** A call for arithmetic on operands of one width. */
  predicate MachineCall(table: seq<LabelInfo>, a: LabelInfo)
    requires Ordered(table)
  {
    && IsMachine(a.op) && 0 < a.size <= 64 && |table| <= INITIALIZING
    && Fits(table, a.l1, a.op1, a.size) && Fits(table, a.l2, a.op2, a.size)
  }

  function First(w: World, table: seq<LabelInfo>, a: LabelInfo): nat
    requires Ordered(table) && a.l1 < |table|
  {
    if a.l1 == 0 then a.op1 else Value(w, table, a.l1)
  }

  function Second(w: World, table: seq<LabelInfo>, a: LabelInfo): nat
    requires Ordered(table) && a.l2 < |table|
  {
    if a.l2 == 0 then a.op2 else Value(w, table, a.l2)
  }

  lemma {:induction false} OperandsFit(w: World, table: seq<LabelInfo>, a: LabelInfo)
    requires Ordered(table) && AllWiden(table) && MachineCall(table, a)
    ensures First(w, table, a) < Pow2(a.size) && Second(w, table, a) < Pow2(a.size)
  {
    ValueRange(w, table, a.l1);
    ValueRange(w, table, a.l2);
  }

  lemma {:induction false} OperandIs(w: World, table: seq<LabelInfo>, a: LabelInfo)
    requires Ordered(table) && AllWiden(table) && MachineCall(table, a)
    ensures Ordered(table + [a])
    ensures Operand(w, table + [a], |table|, false) == First(w, table, a)
    ensures Operand(w, table + [a], |table|, true) == Second(w, table, a)
  {
    var t := table + [a];
    OperandsFit(w, table, a);
    ModSmall(First(w, table, a), Pow2(a.size));
    ModSmall(Second(w, table, a), Pow2(a.size));
    ValuePrefix(w, table, t, a.l1);
    ValuePrefix(w, table, t, a.l2);
    assert Pow2(1) == 2;
    hide Pow2, Value, LabelBits;
  }

  /** The node's value by the definition of its operator. */
  lemma {:induction false} MachineNode(w: World, table: seq<LabelInfo>, a: LabelInfo)
    requires Ordered(table) && AllWiden(table) && MachineCall(table, a) && Standard(w.arith)
    ensures Ordered(table + [a])
    ensures NodeValue(w, table, a) == Cut(a.op, a.size, First(w, table, a), Second(w, table, a))
  {
    var x, y := First(w, table, a), Second(w, table, a);
    OperandIs(w, table, a);
    assert w.arith(a.op, a.size, x, y) % Pow2(a.size) == Machine(a.op, a.size, x, y) % Pow2(a.size);
    if a.size == 1 && IsBitwise(a.op) {
      OperandsFit(w, table, a);
      assert Pow2(1) == 2;
      OneBitLogic(a.op, x, y);
    }
    hide Pow2, Operand, Machine, Standard, LabelBits;
  }

  /** The operators with their results cut to `n` bits. */
  function Cut(op: Op, n: nat, x: nat, y: nat): nat {
    Machine(op, n, x, y) % Pow2(n)
  }

  /** The identities behind the simplifications. */
  lemma {:induction false} ZeroLaws(n: nat, y: nat)
    requires y < Pow2(n)
    ensures Cut(And, n, 0, y) == Cut(Mul, n, 0, y) == Cut(Shl, n, 0, y) == 0
    ensures Cut(Or, n, 0, y) == Cut(Xor, n, 0, y) == Cut(Add, n, 0, y) == y
    ensures Cut(Xor, n, y, y) == 0
  {
    BitwiseZero(y);
    XorSelf(y);
    ModSmall(y, Pow2(n));
    ModSmall(0, Pow2(n));
    hide Bitwise, Pow2;
  }

  lemma {:induction false} OnesLaws(n: nat, y: nat)
    requires y < Pow2(n)
    ensures Cut(And, n, Pow2(n) - 1, y) == y && Cut(Or, n, Pow2(n) - 1, y) == Pow2(n) - 1
    ensures n == 1 ==> Cut(Xor, n, 1, y) == B(y == 0)
  {
    BitwiseOnes(n, y);
    ModSmall(y, Pow2(n));
    ModSmall(Pow2(n) - 1, Pow2(n));
    if n == 1 {
      assert Pow2(1) == 2;
      OneBitLogic(Xor, 1, y);
    }
    hide Bitwise, Pow2;
  }

  lemma {:induction false} RightZeroLaws(n: nat, x: nat)
    requires x < Pow2(n)
    ensures Cut(Sub, n, x, 0) == Cut(Shl, n, x, 0) == Cut(LShr, n, x, 0) == Cut(AShr, n, x, 0) == x
  {
    assert Pow2(0) == 1;
    hide Pow2;
    ModSmall(x, Pow2(n));
    SignedModulo(x, n);
  }

  lemma {:induction false} SignedModulo(x: nat, n: nat)
    requires x < Pow2(n)
    ensures Signed(x, n) % Pow2(n) == x
  {
    hide Pow2;
    var p := Pow2(n);
    assert (x - p) % p == x by { assert x - p == -1 * p + x; ModSmall(x, p); }
    ModSmall(x, p);
  }

  lemma {:induction false} MachineSwap(op: Op, n: nat, x: nat, y: nat)
    requires IsMachine(op) && Commutative(op)
    ensures Machine(op, n, x, y) == Machine(op, n, y, x)
  {
    BitwiseSwap(op, x, y);
  }

  // ---- calls the compiler makes ----

  /** The size field is the width, except for compares, where it is the width of the operands. */
  predicate Sized(table: seq<LabelInfo>, l: nat)
    requires Ordered(table) && l < |table|
  {
    !IsCompare(table[l].op) ==> LabelBits(table, l) == table[l].size
  }

  ghost predicate Proper(table: seq<LabelInfo>) {
    && WellMade(table) && |table| <= INITIALIZING && AllWiden(table)
    && forall l :: 0 < l < |table| ==> Sized(table, l)
  }

  predicate NoBounds(table: seq<LabelInfo>, a: LabelInfo) {
    a.l1 < |table| && a.l2 < |table| && !OnBounds(table, a)
  }

  /** A truncation that undoes the extension of a compare. */
  predicate UndoesCompare(table: seq<LabelInfo>, a: LabelInfo) {
    Undoes(table, a) && IsCompare(table[table[a.l1].l1].op)
  }

  /** Calls for the other operators, with the sizes that the compiler gives. */
  predicate PlainCall(table: seq<LabelInfo>, a: LabelInfo)
    requires Ordered(table)
  {
    && NoBounds(table, a)
    && match a.op
       case UDiv => true
       case SDiv => true
       case URem => true
       case SRem => true
       case ICmp(_) => true
       case ZExt => a.l2 == 0 && LabelBits(table, a.l1) <= a.size
       case SExt => a.l2 == 0 && LabelBits(table, a.l1) <= a.size
       case Trunc => a.l2 == 0 && a.size > 0 && !UndoesCompare(table, a)
       case Extract => a.l2 == 0
       case IntToPtr => a.l2 == 0 && a.size == LabelBits(table, a.l1)
       case Not => a.l1 == 0 && a.size == 1
       case Load => 0 < a.l2 && a.size == 8 * a.l2
       case Concat => a.size == NodeBits(table, a)
       case _ => false
  }

  function NodeBits(table: seq<LabelInfo>, a: LabelInfo): nat
    requires Ordered(table) && a.l1 < |table| && a.l2 < |table|
  {
    LabelBits(table + [a], |table|)
  }

  ghost predicate ProperCall(table: seq<LabelInfo>, a: LabelInfo)
    requires Ordered(table)
  {
    MachineCall(table, a) || PlainCall(table, a)
  }

  // ---- the theorem ----

  /** What an entry stands for does not depend on whether it is found or made. */
  lemma {:induction false} EntryMeans(w: World, table: seq<LabelInfo>, info: LabelInfo, l: nat)
    requires WellMade(table) && l < |table| && table[l] == info && info.op != Input && info.op != Fmemcmp
    ensures Ordered(table + [info])
    ensures Value(w, table, l) == NodeValue(w, table, info) && LabelBits(table, l) == NodeBits(table, info)
  {
    var t := table + [info];
    assert l > 0 && info.l1 < l && info.l2 < l;
    ValuePrefix(w, table, t, info.l1);
    ValuePrefix(w, table, t, info.l2);
    hide Value, LabelBits;
    SameNode(w, table, l, t, |table|);
  }

  /** Erasing concrete values of symbolic operands changes nothing. */
  lemma {:induction false} ErasedMeans(w: World, table: seq<LabelInfo>, a: LabelInfo)
    requires Ordered(table) && a.l1 < |table| && a.l2 < |table| && a.op != Input && a.op != Fmemcmp
    requires a.op == Extract ==> a.l2 == 0
    ensures Ordered(table + [a]) && Ordered(table + [Erased(a)])
    ensures NodeValue(w, table, Erased(a)) == NodeValue(w, table, a) && NodeBits(table, Erased(a)) == NodeBits(table, a)
  {
    var s, t := table + [Erased(a)], table + [a];
    ValuePrefix(w, s, t, a.l1);
    ValuePrefix(w, s, t, a.l2);
    hide Value, LabelBits;
    SameNode(w, s, |table|, t, |table|);
  }

  /** What Prepare answers stands for the node: a label with its value, an entry with its value, or 0. */
  ghost predicate Answers(w: World, table: seq<LabelInfo>, a: LabelInfo, p: Prepared)
    requires Ordered(table) && a.l1 < |table| && a.l2 < |table|
  {
    match p
    case Known(l) =>
      l != 0 ==> l < |table| && Value(w, table, l) == NodeValue(w, table, a) && LabelBits(table, l) == NodeBits(table, a)
    case Entry(info) =>
      && info.op != Input && info.op != Fmemcmp && info.l1 < |table| && info.l2 < |table|
      && NodeValue(w, table, info) == NodeValue(w, table, a) && NodeBits(table, info) == NodeBits(table, a)
  }

  lemma {:induction false} NotNode(w: World, table: seq<LabelInfo>, a: LabelInfo)
    requires Ordered(table) && a.l1 < |table| && 0 < a.l2 < |table| && a.op == Not
    ensures NodeValue(w, table, a) == B(Value(w, table, a.l2) == 0) && NodeBits(table, a) == 1
  {
    ValuePrefix(w, table, table + [a], a.l2);
    hide Pow2;
  }

  lemma {:induction false} OnesAre(a: LabelInfo)
    requires 0 < a.size <= 64 && FirstIsOnes(a)
    ensures a.op1 == Pow2(a.size) - 1
  {
    assert Pow2(0) == 1;
    if a.size < 64 { assert a.size % 64 == a.size; }
    hide Pow2;
  }

  /** The value that simplification by the first operand keeps. */
  lemma {:induction false} FirstValue(w: World, table: seq<LabelInfo>, a: LabelInfo)
    requires Proper(table) && MachineCall(table, a) && Standard(w.arith)
    ensures Ordered(table + [a])
    ensures
      var v, y := NodeValue(w, table, a), Second(w, table, a);
      && (FirstIsZero(a) && a.op in {And, Mul, Shl} ==> v == 0)
      && (FirstIsZero(a) && a.op in {Or, Xor, Add} ==> v == y)
      && (FirstIsOnes(a) && a.op == And ==> v == y)
      && (FirstIsOnes(a) && a.op == Or ==> v == Pow2(a.size) - 1)
      && (FirstIsOnes(a) && a.op == Xor && a.size == 1 ==> v == B(y == 0))
  {
    hide Cut, NodeValue, Value, LabelBits, Standard, AllWiden, AllOnes, Distinct, Pow2;
    MachineNode(w, table, a);
    OperandsFit(w, table, a);
    Pow2Small();
    ZeroLaws(a.size, Second(w, table, a));
    OnesLaws(a.size, Second(w, table, a));
    if FirstIsOnes(a) { OnesAre(a); }
  }

  /** The value that the other simplifications keep. */
  lemma {:induction false} SecondValue(w: World, table: seq<LabelInfo>, a: LabelInfo)
    requires Proper(table) && MachineCall(table, a) && Standard(w.arith)
    ensures Ordered(table + [a])
    ensures
      var v, x := NodeValue(w, table, a), First(w, table, a);
      && (SecondIsZero(a) && a.op in {Sub, Shl, LShr, AShr} ==> v == x)
      && (a.op == Xor && a.l1 == a.l2 != 0 ==> v == 0)
  {
    hide Cut, NodeValue, Value, LabelBits, Standard, AllWiden, Distinct, Pow2;
    MachineNode(w, table, a);
    OperandsFit(w, table, a);
    ZeroLaws(a.size, Second(w, table, a));
    RightZeroLaws(a.size, First(w, table, a));
  }

  lemma {:induction false} MachineSimplify(w: World, table: seq<LabelInfo>, a: LabelInfo)
    requires Proper(table) && MachineCall(table, a) && Standard(w.arith) && (a.l1 != 0 || a.l2 != 0)
    ensures Answers(w, table, a, Simplify(table, a))
  {
    hide Machine, NodeValue, NodeBits, Pow2, Value, LabelBits, Standard, AllWiden, Distinct, Sized;
    FirstValue(w, table, a);
    SecondValue(w, table, a);
    MachineBits(table, a);
    if a.l2 != 0 { NotNode(w, table, a.(op := Not)); }
  }

  lemma {:induction false} MachineBits(table: seq<LabelInfo>, a: LabelInfo)
    requires Ordered(table) && MachineCall(table, a)
    ensures NodeBits(table, a) == a.size
  {
  }

  /** Putting the operands in order changes nothing for a commutative operator. */
  lemma {:induction false} ArrangedMeans(w: World, table: seq<LabelInfo>, a: LabelInfo)
    requires Proper(table) && MachineCall(table, a) && Standard(w.arith)
    ensures MachineCall(table, Erased(Arranged(a))) && Ordered(table + [a])
    ensures var b := Erased(Arranged(a));
      NodeValue(w, table, b) == NodeValue(w, table, a) && NodeBits(table, b) == NodeBits(table, a)
  {
    var c := Arranged(a);
    MachineNode(w, table, a);
    MachineNode(w, table, c);
    if Commutative(a.op) { MachineSwap(a.op, a.size, First(w, table, a), Second(w, table, a)); }
    ErasedMeans(w, table, c);
    assert NodeBits(table, c) == a.size == NodeBits(table, a);
    hide NodeValue, NodeBits, Machine, Value, LabelBits, Standard, Proper, Pow2;
  }

  /** The low `n` bits. */
  function Low(x: nat, n: nat): nat {
    x % Pow2(n)
  }

  lemma {:induction false} TruncNode(w: World, table: seq<LabelInfo>, a: LabelInfo)
    requires Ordered(table) && a.l1 < |table| && a.l2 < |table| && a.op == Trunc
    ensures NodeValue(w, table, a) == Low(Value(w, table, a.l1), a.size) && NodeBits(table, a) == a.size
  {
    ValuePrefix(w, table, table + [a], a.l1);
    hide Pow2;
  }

  /** Cutting a sign extension back to its own width. */
  lemma {:induction false} CutExtension(x: nat, bits: nat, k: nat)
    requires x < Pow2(bits)
    ensures Low(x, bits) == x && Low(SignExtend(x, bits, k), bits) == x
  {
    hide Pow2;
    ModSmall(x, Pow2(bits));
    var m := Pow2(k) - 1;
    assert (x + Pow2(bits) * m) % Pow2(bits) == x by { AddMultiple(x, Pow2(bits), m); }
  }

  lemma {:induction false} Between(p: nat, d: int)
    requires p > 0 && p * d < p && p * d + p > 0
    ensures d == 0
  {
  }

  lemma {:induction false} AddMultiple(x: nat, p: nat, m: nat)
    requires p > 0
    ensures (x + p * m) % p == x % p
  {
    var y := x + p * m;
    var d := y / p - x / p - m;
    assert p * d == x % p - y % p by {
      assert x == p * (x / p) + x % p && y == p * (y / p) + y % p;
      assert p * d == p * (y / p) - p * (x / p) - p * m;
    }
    Between(p, d);
  }

  /** All ones, cut to `n` bits. */
  lemma {:induction false} OnesExtension(n: nat, k: nat)
    requires 0 < n <= k + 1
    ensures Low(SignExtend(1, 1, k), n) == Pow2(n) - 1
  {
    hide *;
    var p, q := Pow2(n), Pow2(k + 1 - n);
    ExtendedOne(k);
    Pow2Add(n, k + 1 - n);
    LessOne(p, q);
    AddMultiple(p - 1, p, q - 1);
    ModSmall(p - 1, p);
    LowIs(SignExtend(1, 1, k), n);
  }

  lemma {:induction false} ExtendedOne(k: nat)
    ensures SignExtend(1, 1, k) == Pow2(k + 1) - 1
  {
    assert Pow2(0) == 1 && Pow2(1) == 2 && Pow2(k + 1) == 2 * Pow2(k);
  }

  lemma {:induction false} LessOne(p: nat, q: nat)
    ensures p * q - 1 == (p - 1) + p * (q - 1)
  {
  }

  lemma {:induction false} LowIs(x: nat, n: nat)
    ensures Low(x, n) == x % Pow2(n)
  {
  }

  lemma {:induction false} ExtensionValue(w: World, table: seq<LabelInfo>, l: nat)
    requires Ordered(table) && AllWiden(table) && 0 < l < |table| && IsExtension(table[l].op)
    ensures
      var base := table[l].l1;
      var v, bits := Value(w, table, base), LabelBits(table, base);
      && v < Pow2(bits) && bits <= table[l].size
      && Value(w, table, l) == (if table[l].op == ZExt then v else SignExtend(v, bits, table[l].size - bits))
  {
    ValueRange(w, table, table[l].l1);
    assert Widens(table, l);
    hide Pow2, SignExtend;
  }

  lemma {:induction false} CompareValue(w: World, table: seq<LabelInfo>, l: nat)
    requires Ordered(table) && 0 < l < |table| && IsCompare(table[l].op)
    ensures Value(w, table, l) <= 1 && LabelBits(table, l) == if table[l].op.ICmp? then 1 else 32
  {
    hide Pow2, Operand;
  }

  /** A compare's value, sign extended and cut. */
  lemma {:induction false} CompareExtension(v: nat, bits: nat, k: nat, n: nat)
    requires v <= 1 && 0 < n && (bits == 32 || (bits == 1 && n <= k + 1))
    ensures Low(v, n) == v
    ensures Low(SignExtend(v, bits, k), n) == v <==> !(bits == 1 && n > 1 && v == 1)
  {
    assert Pow2(1) == 2 && Pow2(2) == 4 && Pow2(0) == 1;
    OneBit(v == 1, n);
    ModSmall(v, Pow2(n));
    Pow2Monotone(1, 31);
    if bits == 1 { OnesExtension(n, k); }
    if n > 1 { Pow2Monotone(2, n); }
    hide Pow2, Times;
  }

  ghost predicate Undoing(table: seq<LabelInfo>, a: LabelInfo) {
    Proper(table) && Undoes(table, a) && 0 < a.size <= table[a.l1].size && 0 < a.l1 && a.l2 < |table|
  }

  lemma {:induction false} UndoingIs(table: seq<LabelInfo>, a: LabelInfo)
    requires Undoing(table, a)
    ensures Ordered(table) && AllWiden(table) && a.op == Trunc && 0 < a.l1 < |table| && a.l2 < |table|
    ensures IsExtension(table[a.l1].op) && (table[a.l1].op == ZExt || table[a.l1].op == SExt)
    ensures 0 < table[a.l1].l1 < |table| && a.size == table[table[a.l1].l1].size && 0 < a.size <= table[a.l1].size
    ensures Sized(table, table[a.l1].l1) && Ordered(table + [a])
    ensures !IsCompare(table[table[a.l1].l1].op) ==> LabelBits(table, table[a.l1].l1) == a.size
    ensures UndoesCompare(table, a) <==> IsCompare(table[table[a.l1].l1].op)
  {
    assert Widens(table, a.l1);
    hide LabelBits;
  }

  lemma {:induction false} UndoPlain(w: World, table: seq<LabelInfo>, a: LabelInfo)
    requires Undoing(table, a) && !UndoesCompare(table, a)
    ensures Ordered(table + [a])
    ensures NodeValue(w, table, a) == Value(w, table, table[a.l1].l1) && LabelBits(table, table[a.l1].l1) == a.size
  {
    hide *;
    UndoingIs(table, a);
    TruncNode(w, table, a);
    ExtensionValue(w, table, a.l1);
    var v, bits := Value(w, table, table[a.l1].l1), LabelBits(table, table[a.l1].l1);
    CutExtension(v, bits, table[a.l1].size - bits);
  }

  lemma {:induction false} UndoCompare(w: World, table: seq<LabelInfo>, a: LabelInfo)
    requires Undoing(table, a) && UndoesCompare(table, a)
    ensures Ordered(table + [a])
    ensures var base := table[a.l1].l1;
      NodeValue(w, table, a) == Value(w, table, base)
      <==> !(table[a.l1].op == SExt && table[base].op.ICmp? && a.size > 1 && Value(w, table, base) == 1)
  {
    hide *;
    UndoingIs(table, a);
    TruncNode(w, table, a);
    ExtensionValue(w, table, a.l1);
    CompareValue(w, table, table[a.l1].l1);
    var v, bits := Value(w, table, table[a.l1].l1), LabelBits(table, table[a.l1].l1);
    CompareExtension(v, bits, table[a.l1].size - bits, a.size);
  }

  /** A truncation back to the recorded size gives the extended label.  That is right unless the label is a compare,
      whose recorded size is not its width, and true, and extended with its sign. */
  lemma {:induction false} UndoIsRight(w: World, table: seq<LabelInfo>, a: LabelInfo)
    requires Undoing(table, a)
    ensures Ordered(table + [a])
    ensures var base := table[a.l1].l1;
      NodeValue(w, table, a) == Value(w, table, base)
      <==> !(table[a.l1].op == SExt && table[base].op.ICmp? && a.size > 1 && Value(w, table, base) == 1)
  {
    hide Value, LabelBits, NodeValue, Pow2, Undoing, Ordered;
    UndoingIs(table, a);
    if UndoesCompare(table, a) { UndoCompare(w, table, a); } else { UndoPlain(w, table, a); }
  }

  lemma {:induction false} PlainPrepare(table: seq<LabelInfo>, a: LabelInfo)
    requires Proper(table) && PlainCall(table, a)
    ensures Prepare(table, a) ==
      if a.l1 == 0 && a.l2 == 0 then Known(0)
      else if Undoes(table, a) then Known(table[a.l1].l1)
      else Entry(Erased(a))
  {
    hide AllWiden, LabelBits, AllOnes, Pow2, Distinct, NodeBits;
    assert Arranged(a) == a;
  }

  lemma {:induction false} PlainMeans(w: World, table: seq<LabelInfo>, a: LabelInfo)
    requires Proper(table) && PlainCall(table, a)
    ensures Answers(w, table, a, Prepare(table, a))
  {
    PlainPrepare(table, a);
    if Undoes(table, a) {
      var base := table[a.l1].l1;
      assert Widens(table, a.l1) && Sized(table, base);
      UndoIsRight(w, table, a);
      TruncNode(w, table, a);
    }
    ErasedMeans(w, table, a);
    hide Prepare, NodeValue, NodeBits, Value, LabelBits, Proper, Pow2;
  }

  lemma {:induction false} MachinePrepare(table: seq<LabelInfo>, a: LabelInfo)
    requires Proper(table) && MachineCall(table, a)
    ensures Prepare(table, a) ==
      if a.l1 == 0 && a.l2 == 0 then Known(0) else Simplify(table, Erased(Arranged(a)))
  {
    hide AllWiden, LabelBits, Simplify, Pow2;
  }

  lemma {:induction false} MachineMeans(w: World, table: seq<LabelInfo>, a: LabelInfo)
    requires Proper(table) && MachineCall(table, a) && Standard(w.arith)
    ensures Answers(w, table, a, Prepare(table, a))
  {
    MachinePrepare(table, a);
    ArrangedMeans(w, table, a);
    var b := Erased(Arranged(a));
    hide Prepare, NodeValue, NodeBits, Value, LabelBits, Proper, Pow2, Standard, Simplify, MachineCall;
    if a.l1 != 0 || a.l2 != 0 { MachineSimplify(w, table, b); }
  }

  lemma {:induction false} AnsweredMeans(w: World, table: seq<LabelInfo>, limit: nat, a: LabelInfo)
    requires Proper(table) && a.l1 < |table| && a.l2 < |table| && Answers(w, table, a, Prepare(table, a))
    requires UnionOf(table, limit, a).Some?
    ensures Ordered(table + [a]) && WellMade(UnionOf(table, limit, a).value.table)
    ensures
      var m := UnionOf(table, limit, a).value;
      m.id != 0 ==>
        && m.id < |m.table| && Value(w, m.table, m.id) == NodeValue(w, table, a)
        && LabelBits(m.table, m.id) == NodeBits(table, a)
  {
    StepKeeps(table, limit, Call.Union(a));
    var p := Prepare(table, a);
    hide Prepare, Value, LabelBits, Standard, Pow2, AllWiden;
    if p.Entry? && Scan(table, p.info).Some? { EntryMeans(w, table, p.info, Scan(table, p.info).value); }
  }

  /** Every label that __taint_union returns has the value and the width of the operation it was asked for. */
  lemma {:induction false} UnionMeans(w: World, table: seq<LabelInfo>, limit: nat, a: LabelInfo)
    requires Proper(table) && ProperCall(table, a) && UnionOf(table, limit, a).Some?
    requires MachineCall(table, a) ==> Standard(w.arith)
    ensures Ordered(table + [a]) && WellMade(UnionOf(table, limit, a).value.table)
    ensures
      var m := UnionOf(table, limit, a).value;
      m.id != 0 ==>
        && m.id < |m.table| && Value(w, m.table, m.id) == NodeValue(w, table, a)
        && LabelBits(m.table, m.id) == NodeBits(table, a)
  {
    hide Prepare, Value, LabelBits, Standard, Pow2, AllWiden, UnionOf;
    if MachineCall(table, a) { MachineMeans(w, table, a); } else { PlainMeans(w, table, a); }
    AnsweredMeans(w, table, limit, a);
  }

  /** A call of arithmetic that answers 0 has one value for all inputs. */
  lemma {:induction false} ZeroIsConstant(w: World, v: World, table: seq<LabelInfo>, limit: nat, a: LabelInfo)
    requires Proper(table) && ProperCall(table, a) && Standard(w.arith) && v.arith == w.arith
    requires UnionOf(table, limit, a).Some? && UnionOf(table, limit, a).value.id == 0
    ensures Ordered(table + [a]) && NodeValue(w, table, a) == NodeValue(v, table, a)
  {
    assert Prepare(table, a) == Known(0);
    if MachineCall(table, a) { MachineZero(w, v, table, a); } else { PlainZero(w, v, table, a); }
  }

  lemma {:induction false} MachineZero(w: World, v: World, table: seq<LabelInfo>, a: LabelInfo)
    requires Proper(table) && MachineCall(table, a) && Standard(w.arith) && v.arith == w.arith
    requires Prepare(table, a) == Known(0)
    ensures Ordered(table + [a]) && NodeValue(w, table, a) == NodeValue(v, table, a)
  {
    hide Prepare, NodeValue, NodeBits, Value, LabelBits, Pow2, Standard, Cut, AllWiden, Distinct;
    MachinePrepare(table, a);
    FitsRange(table, a);
    if a.l1 == 0 && a.l2 == 0 {
      MachineNode(w, table, a);
      MachineNode(v, table, a);
    } else {
      ArrangedMeans(w, table, a);
      ArrangedMeans(v, table, a);
      SimplifiedZero(w, v, table, Erased(Arranged(a)));
    }
  }

  lemma {:induction false} SimplifiedZero(w: World, v: World, table: seq<LabelInfo>, b: LabelInfo)
    requires Proper(table) && MachineCall(table, b) && Standard(w.arith) && v.arith == w.arith
    requires Simplify(table, b) == Known(0) && (b.l1 != 0 || b.l2 != 0)
    ensures Ordered(table + [b]) && NodeValue(w, table, b) == NodeValue(v, table, b)
  {
    hide NodeValue, NodeBits, Value, LabelBits, Pow2, Standard, AllWiden, Distinct, AllOnes;
    FirstValue(w, table, b);
    FirstValue(v, table, b);
    SecondValue(w, table, b);
    SecondValue(v, table, b);
  }

  lemma {:induction false} PlainZero(w: World, v: World, table: seq<LabelInfo>, a: LabelInfo)
    requires Proper(table) && PlainCall(table, a) && v.arith == w.arith && Prepare(table, a) == Known(0)
    ensures Ordered(table + [a]) && NodeValue(w, table, a) == NodeValue(v, table, a)
  {
    PlainPrepare(table, a);
    UndoneIsLabel(table, a);
    ConstantNode(w, v, table, a);
  }

  lemma {:induction false} UndoneIsLabel(table: seq<LabelInfo>, a: LabelInfo)
    requires Proper(table)
    ensures Undoes(table, a) ==> table[a.l1].l1 != 0
  {
    if Undoes(table, a) { assert Widens(table, a.l1); }
  }

  /** A node over constants has the same value in every world. */
  lemma {:induction false} ConstantNode(w: World, v: World, table: seq<LabelInfo>, a: LabelInfo)
    requires Ordered(table) && a.l1 == 0 && a.l2 == 0 && v.arith == w.arith
    requires a.op != Input && a.op != Load && a.op != Fmemcmp
    ensures Ordered(table + [a]) && NodeValue(w, table, a) == NodeValue(v, table, a)
  {
    hide Pow2, Bytes, LabelBits, Holds, SignExtend;
    var t, l := table + [a], |table|;
    assert Value(w, t, 0) == Value(v, t, 0) == 0;
    assert Operand(w, t, l, false) == Operand(v, t, l, false) && Operand(w, t, l, true) == Operand(v, t, l, true);
  }

  lemma {:induction false} FitsRange(table: seq<LabelInfo>, a: LabelInfo)
    requires Ordered(table) && MachineCall(table, a)
    ensures a.l1 < |table| && a.l2 < |table| && IsMachine(a.op)
  {
  }

  lemma {:induction false} NodeBitsErased(table: seq<LabelInfo>, a: LabelInfo)
    requires Ordered(table) && a.l1 < |table| && a.l2 < |table| && a.op != Input && a.op != Fmemcmp
    requires a.op == Extract ==> a.l2 == 0
    ensures NodeBits(table, Erased(a)) == NodeBits(table, a)
  {
    ErasedMeans(World(_ => 0, (_, _, _, _) => 0, _ => 0), table, a);
  }

  lemma {:induction false} BitsPrefix(s: seq<LabelInfo>, t: seq<LabelInfo>, l: nat)
    requires SameUpTo(s, t, l)
    ensures LabelBits(s, l) == LabelBits(t, l)
  {
    ValuePrefix(World(_ => 0, (_, _, _, _) => 0, _ => 0), s, t, l);
  }

  lemma {:induction false} ProperAppend(table: seq<LabelInfo>, info: LabelInfo)
    requires Proper(table) && WellMade(table + [info]) && |table| < INITIALIZING
    requires !IsCompare(info.op) ==> LabelBits(table + [info], |table|) == info.size
    requires IsExtension(info.op) ==> 0 < info.l1 && LabelBits(table, info.l1) <= info.size
    requires info.op == Extract ==> 0 < info.l1
    ensures Proper(table + [info])
  {
    var t := table + [info];
    assert info == t[|table|];
    forall l | 0 < l < |t| ensures Sized(t, l) && Widens(t, l) {
      if l < |table| {
        assert Sized(table, l) && Widens(table, l) && t[l] == table[l];
        BitsPrefix(table, t, l);
        BitsPrefix(table, t, t[l].l1);
      } else {
        BitsPrefix(table, t, info.l1);
      }
    }
  }

  /** A label created for an input byte stands for that byte. */
  lemma {:induction false} CreateMeans(w: World, table: seq<LabelInfo>, limit: nat, offset: nat)
    requires Ordered(table) && |table| < limit
    ensures CreateOf(table, limit, offset).Some?
    ensures
      var m := CreateOf(table, limit, offset).value;
      && Ordered(m.table) && table <= m.table && m.id == |table| < |m.table|
      && Value(w, m.table, m.id) == w.input((0, offset)) % 256 && LabelBits(m.table, m.id) == 8
  {
  }

  /** The table that a run starts from. */
  lemma {:induction false} ProperStart()
    ensures Proper([CONST_ENTRY])
  {
  }

  /** The size of a cast, read or join is what its operands make it.  Nothing is asked of other calls: arithmetic,
      comparisons, memcmp, bounds, pointer casts and operators that the runtime does not know. */
  predicate SizedCall(table: seq<LabelInfo>, a: LabelInfo)
    requires Ordered(table)
  {
    a.l1 < |table| && a.l2 < |table| ==>
      match a.op
      case ZExt => a.l2 == 0 && LabelBits(table, a.l1) <= a.size
      case SExt => a.l2 == 0 && LabelBits(table, a.l1) <= a.size
      case Extract => a.l2 == 0
      case IntToPtr => a.size == LabelBits(table, a.l1)
      case Not => a.size == 1
      case Load => a.size == 8 * LoadSize(a.l2)
      case Concat => a.size == NodeBits(table, a)
      case _ => true
  }

  lemma {:induction false} ProperIsSized(table: seq<LabelInfo>, a: LabelInfo)
    requires Ordered(table) && ProperCall(table, a)
    ensures SizedCall(table, a)
  {
    hide LabelBits, Fits, OnBounds, UndoesCompare;
  }

  /** What is looked for is the call itself, arranged and erased, or the negation that an exclusive or with one is. */
  lemma {:induction false} PreparedIs(table: seq<LabelInfo>, a: LabelInfo)
    requires Prepare(table, a).Entry?
    ensures
      var info := Prepare(table, a).info;
      && ValidOp(a.op) && (info == Erased(Arranged(a)) || (info == Erased(Arranged(a)).(op := Not) && a.size == 1))
      && (info.l1 == 0 && info.l2 == 0 ==> a.op == Fsize || a.op == Alloca)
  {
    hide AllOnes, Undoes, OnBounds;
  }

  lemma {:induction false} SizedEntry(table: seq<LabelInfo>, a: LabelInfo)
    requires Proper(table) && SizedCall(table, a) && Prepare(table, a).Entry?
    requires Prepare(table, a).info.l1 < |table| && Prepare(table, a).info.l2 < |table|
    ensures
      var info := Prepare(table, a).info;
      && Ordered(table + [info]) && (!IsCompare(info.op) ==> NodeBits(table, info) == info.size)
      && (IsExtension(info.op) ==> 0 < info.l1 && LabelBits(table, info.l1) <= info.size)
      && (info.op == Extract ==> 0 < info.l1)
  {
    hide Prepare, AllWiden, Distinct, Pow2;
    PreparedIs(table, a);
    var info := Prepare(table, a).info;
    BitsPrefix(table, table + [info], info.l1);
    if a.op == Concat { NodeBitsErased(table, a); }
  }

  /** A run all of whose calls have the sizes that the compiler gives. */
  ghost predicate ProperRun(table: seq<LabelInfo>, limit: nat, calls: seq<Call>)
    requires Ordered(table)
    decreases |calls|
  {
    |calls| > 0 ==>
      && (calls[0].Union? ==> SizedCall(table, calls[0].a))
      && (Step(table, limit, calls[0]).Some? && Ordered(Step(table, limit, calls[0]).value.table) ==>
            ProperRun(Step(table, limit, calls[0]).value.table, limit, calls[1..]))
  }

  lemma {:induction false} StepProper(table: seq<LabelInfo>, limit: nat, c: Call)
    requires Proper(table) && limit <= INITIALIZING && (c.Union? ==> SizedCall(table, c.a))
    requires Step(table, limit, c).Some?
    ensures Proper(Step(table, limit, c).value.table)
  {
    StepKeeps(table, limit, c);
    var t := Step(table, limit, c).value.table;
    if c.Union? && |t| > |table| {
      SizedEntry(table, c.a);
      hide Prepare, Proper, WellMade, LabelBits, SizedCall;
      ProperAppend(table, t[|table|]);
    } else if c.Create? {
      ProperAppend(table, InputInfo(c.offset));
    }
  }

  /** The sizes stay right over every such run. */
  lemma {:induction false} RunProper(table: seq<LabelInfo>, limit: nat, calls: seq<Call>)
    requires Proper(table) && limit <= INITIALIZING && ProperRun(table, limit, calls) && Run(table, limit, calls).Some?
    ensures Proper(Run(table, limit, calls).value)
    decreases |calls|
  {
    if |calls| > 0 {
      StepProper(table, limit, calls[0]);
      hide Step, SizedCall;
      RunProper(Step(table, limit, calls[0]).value.table, limit, calls[1..]);
    }
  }

  /** byte == 0, extended with its sign to 32 bits. */
  const COMPARED: seq<LabelInfo> := [
    CONST_ENTRY,
    LabelInfo(0, 0, 0, 0, Input, 8),
    LabelInfo(1, 0, 0, 0, ICmp(Bveq), 8),
    LabelInfo(2, 0, 0, 0, SExt, 32)
  ]

  lemma {:induction false} ComparedValues(w: World)
    requires w.input((0, 0)) == 0
    ensures Ordered(COMPARED) && Value(w, COMPARED, 2) == 1 && Value(w, COMPARED, 3) == SignExtend(1, 1, 31)
  {
    hide Pow2, SignExtend;
    assert Value(w, COMPARED, 1) == 0;
    ModSmall(0, Pow2(8));
    assert Operand(w, COMPARED, 2, false) == 0 && Operand(w, COMPARED, 2, true) == 0;
    assert Value(w, COMPARED, 2) == 1 && LabelBits(COMPARED, 2) == 1;
  }

  lemma {:induction false} PreparedCompare(limit: nat)
    ensures
      var a := LabelInfo(3, 0, 0, 0, Trunc, 8);
      && Ordered(COMPARED) && Ordered(COMPARED + [a]) && |COMPARED| == 4
      && UnionOf(COMPARED, limit, a) == Some(Made(2, COMPARED))
  {
    hide Pow2, Scan;
    assert Prepare(COMPARED, LabelInfo(3, 0, 0, 0, Trunc, 8)) == Known(2);
  }

  /** Truncating it to 8 bits, the size recorded for the compare, answers the compare: 1 where 255 is meant. */
  lemma {:induction false} TruncatedCompare(w: World, limit: nat)
    requires w.input((0, 0)) == 0
    ensures
      var a := LabelInfo(3, 0, 0, 0, Trunc, 8);
      && Ordered(COMPARED) && Ordered(COMPARED + [a])
      && UnionOf(COMPARED, limit, a) == Some(Made(2, COMPARED))
      && Value(w, COMPARED, 2) == 1 && NodeValue(w, COMPARED, a) == 255
  {
    var a := LabelInfo(3, 0, 0, 0, Trunc, 8);
    hide *;
    PreparedCompare(limit);
    Pow2Of8();
    ComparedValues(w);
    OnesExtension(8, 31);
    TruncNode(w, COMPARED, a);
  }
}
