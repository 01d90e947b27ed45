/** runtime/dfsan/dfsan.cpp, __taint_union: canonical operands, simplification and hash-consing of label table
    entries (runtime/dfsan/union_hashtable.cpp). */
module LabelTable {
  import opened Base
  import opened Labels

  // ---- what happens before the table is searched ----

  /** is_valid_op: neither opcode 0 nor Neg lies in the accepted range. */
  predicate ValidOp(op: Op) {
    op != Input && op != Neg
  }

  /** is_commutative looks at the low byte only, which takes the predicate off a compare. */
  predicate Commutative(op: Op) {
    op == Not || op == And || op == Or || op == Xor || op == Add || op == Mul || op == Fmemcmp
  }

  /** The same call with its operands exchanged. */
  function Swapped(a: LabelInfo): LabelInfo {
    a.(l1 := a.l2, l2 := a.l1, op1 := a.op2, op2 := a.op1)
  }

  function Arranged(a: LabelInfo): LabelInfo {
    if a.l1 > a.l2 && Commutative(a.op) then Swapped(a) else a
  }

  /** The operators whose entries record concrete values for symbolic operands too. */
  predicate KeepsConcrete(op: Op) {
    op == Alloca || op.ICmp? || op == Fatoi || op == Fmemcmp
  }

  function Erased(a: LabelInfo): LabelInfo {
    if KeepsConcrete(a.op) then a
    else a.(op1 := if a.l1 >= CONST_OFFSET then 0 else a.op1, op2 := if a.l2 >= CONST_OFFSET then 0 else a.op2)
  }

  /** A label that needs no new entry, or the entry to look for. */
  datatype Prepared = Known(id: nat) | Entry(info: LabelInfo)

  predicate IsBounds(table: seq<LabelInfo>, l: nat) {
    l < |table| && table[l].op == Alloca
  }

  predicate OnBounds(table: seq<LabelInfo>, a: LabelInfo) {
    IsBounds(table, a.l1) || (a.op != Load && IsBounds(table, a.l2))
  }

  /** (1 << size) - 1 on 64 bits; the shift takes its distance modulo 64. */
  function AllOnes(size: nat): nat {
    Pow2(size % 64) - 1
  }

  predicate FirstIsZero(a: LabelInfo) { a.l1 == 0 && a.op1 == 0 }

  predicate FirstIsOnes(a: LabelInfo) { a.l1 == 0 && a.op1 != 0 && a.op1 == AllOnes(a.size) }

  predicate SecondIsZero(a: LabelInfo) { a.l2 == 0 && a.op2 == 0 }

  predicate IsExtension(op: Op) { op == ZExt || op == SExt }

  /** A truncation that undoes an extension. */
  predicate Undoes(table: seq<LabelInfo>, a: LabelInfo) {
    && a.op == Trunc && a.l1 < |table| && IsExtension(table[a.l1].op)
    && table[a.l1].l1 < |table| && a.size == table[table[a.l1].l1].size
  }

  function Simplify(table: seq<LabelInfo>, a: LabelInfo): Prepared {
    if FirstIsZero(a) && a.op in {And, Mul, Shl} then Known(0)
    else if FirstIsZero(a) && a.op in {Or, Xor, Add} then Known(a.l2)
    else if FirstIsOnes(a) && a.op == And then Known(a.l2)
    else if FirstIsOnes(a) && a.op == Or then Known(0)
    else if FirstIsOnes(a) && a.op == Xor && a.size == 1 then Entry(a.(op := Not))
    else if SecondIsZero(a) && a.op in {Sub, Shl, LShr, AShr} then Known(a.l1)
    else if Undoes(table, a) then Known(table[a.l1].l1)
    else if a.op == Xor && a.l1 == a.l2 then Known(0)
    else Entry(a)
  }

  function Prepare(table: seq<LabelInfo>, a: LabelInfo): Prepared {
    var b := Arranged(a);
    if !ValidOp(a.op) then Known(0)
    else if b.l1 == 0 && b.l2 < CONST_OFFSET && a.op != Fsize && a.op != Alloca then Known(0)
    else if b.l1 == INITIALIZING || b.l2 == INITIALIZING then Known(INITIALIZING)
    else if OnBounds(table, b) && a.op == BitCast then Known(b.l1)
    else if OnBounds(table, b) && a.op != Extract then Known(0)
    else Simplify(table, Erased(b))
  }

  // ---- the table as a value ----

  /** The label with this entry, found by looking at every entry made so far. */
  function Scan(table: seq<LabelInfo>, info: LabelInfo): (r: Option<nat>)
    ensures r.Some? ==> r.value < |table| && table[r.value] == info
    ensures r.None? ==> info !in table
  {
    if |table| == 0 then None
    else if table[|table| - 1] == info then Some(|table| - 1)
    else Scan(table[..|table| - 1], info)
  }

  datatype Made = Made(id: nat, table: seq<LabelInfo>)

  /** __taint_union with the hash table replaced by a search of all entries.  None: the process ended. */
  function UnionOf(table: seq<LabelInfo>, limit: nat, a: LabelInfo): Option<Made> {
    match Prepare(table, a)
    case Known(l) => Some(Made(l, table))
    case Entry(info) =>
      match Scan(table, info)
      case Some(l) => Some(Made(l, table))
      case None =>
        var l := |table|;
        if l >= limit || l <= info.l1 || l <= info.l2 then None else Some(Made(l, table + [info]))
  }

  function InputInfo(offset: nat): LabelInfo {
    LabelInfo(0, 0, offset, 0, Input, 8)
  }

  /** dfsan_create_label */
  function CreateOf(table: seq<LabelInfo>, limit: nat, offset: nat): Option<Made> {
    if |table| >= limit then None else Some(Made(|table|, table + [InputInfo(offset)]))
  }

  /** No two entries made by __taint_union are the same. */
  ghost predicate Distinct(table: seq<LabelInfo>) {
    forall i, j :: 0 <= i < j < |table| && table[j].op != Input ==> table[i] != table[j]
  }

  /** The entry of the constant label 0: zero, but for a size of 8. */
  const CONST_ENTRY: LabelInfo := LabelInfo(0, 0, 0, 0, Input, 8)
  /** Label 0 is the constant label; inputs have no operands. */
  ghost predicate WellMade(table: seq<LabelInfo>) {
    && Ordered(table) && Distinct(table)
    && table[0] == CONST_ENTRY
    && forall l :: 0 <= l < |table| && table[l].op == Input ==> table[l].l1 == 0 && table[l].l2 == 0 && table[l].op2 == 0
  }

  // ---- runs ----

  datatype Call = Create(offset: nat) | Union(a: LabelInfo)

  function Step(table: seq<LabelInfo>, limit: nat, c: Call): Option<Made> {
    match c
    case Create(offset) => CreateOf(table, limit, offset)
    case Union(a) => UnionOf(table, limit, a)
  }

  /** The table after a sequence of calls; None if one of them ended the process. */
  function Run(table: seq<LabelInfo>, limit: nat, calls: seq<Call>): Option<seq<LabelInfo>>
    decreases |calls|
  {
    if |calls| == 0 then Some(table)
    else
      match Step(table, limit, calls[0])
      case None => None
      case Some(m) => Run(m.table, limit, calls[1..])
  }

  /** The entry looked for is never an input's. */
  lemma {:induction false} PreparedOp(table: seq<LabelInfo>, a: LabelInfo)
    ensures Prepare(table, a).Entry? ==> Prepare(table, a).info.op != Input
  {
  }

  /** Every call keeps the table well made and only adds to it. */
  lemma {:induction false} StepKeeps(table: seq<LabelInfo>, limit: nat, c: Call)
    requires WellMade(table) && Step(table, limit, c).Some?
    ensures var m := Step(table, limit, c).value; WellMade(m.table) && table <= m.table
  {
    if c.Union? { PreparedOp(table, c.a); }
    hide Prepare;
  }

  /** Hash-consing over all runs: entries of __taint_union are never repeated, and operands come before results. */
  lemma {:induction false} RunKeeps(table: seq<LabelInfo>, limit: nat, calls: seq<Call>)
    requires WellMade(table) && Run(table, limit, calls).Some?
    ensures var t := Run(table, limit, calls).value; WellMade(t) && table <= t
    decreases |calls|
  {
    if |calls| > 0 {
      StepKeeps(table, limit, calls[0]);
      RunKeeps(Step(table, limit, calls[0]).value.table, limit, calls[1..]);
    }
  }

  /** In a well made table the scan finds the only label with the entry. */
  lemma {:induction false} ScanUnique(table: seq<LabelInfo>, info: LabelInfo, l: nat)
    requires WellMade(table) && l < |table| && table[l] == info && info.op != Input
    ensures Scan(table, info) == Some(l)
  {
  }

  /** The labels of a call exist; the second operand of a Load is a number of bytes. */
  predicate InRange(table: seq<LabelInfo>, a: LabelInfo) {
    && (a.l1 < |table| || a.l1 == INITIALIZING)
    && (a.op == Load || a.l2 < |table| || a.l2 == INITIALIZING)
  }

  lemma {:induction false} PrepareStable(table: seq<LabelInfo>, later: seq<LabelInfo>, a: LabelInfo)
    requires WellMade(table) && table <= later && |later| <= INITIALIZING && InRange(table, a)
    ensures Prepare(later, a) == Prepare(table, a)
  {
    var b := Arranged(a);
    assert b.l1 < |table| ==> later[b.l1] == table[b.l1];
    assert b.l2 < |table| ==> later[b.l2] == table[b.l2];
    assert forall l :: 0 <= l < |table| ==> later[l] == table[l];
  }

  /** The same call gives the same label for ever after, whatever was called in between, and adds nothing. */
  lemma {:induction false} UnionIsStable(table: seq<LabelInfo>, limit: nat, a: LabelInfo, calls: seq<Call>)
    requires WellMade(table) && limit <= INITIALIZING && |table| <= limit && InRange(table, a)
    requires UnionOf(table, limit, a).Some?
    requires Run(UnionOf(table, limit, a).value.table, limit, calls).Some?
    ensures
      var m := UnionOf(table, limit, a).value;
      var later := Run(m.table, limit, calls).value;
      UnionOf(later, limit, a) == Some(Made(m.id, later))
  {
    var m := UnionOf(table, limit, a).value;
    StepKeeps(table, limit, Union(a));
    RunKeeps(m.table, limit, calls);
    RunBounded(m.table, limit, calls);
    var later := Run(m.table, limit, calls).value;
    PrepareStable(table, later, a);
    PreparedOp(table, a);
    if Prepare(table, a).Entry? { ScanUnique(later, Prepare(table, a).info, m.id); }
  }

  lemma {:induction false} RunBounded(table: seq<LabelInfo>, limit: nat, calls: seq<Call>)
    requires |table| <= limit && Run(table, limit, calls).Some?
    ensures |Run(table, limit, calls).value| <= limit
    decreases |calls|
  {
    hide Prepare;
    if |calls| > 0 { RunBounded(Step(table, limit, calls[0]).value.table, limit, calls[1..]); }
  }

  // ---- what a label does not depend on ----

  /** Operand order does not matter for a commutative operator, except that a comparison of one buffer with itself
      records both concrete pieces in order. */
  lemma {:induction false} OrderIsIrrelevant(table: seq<LabelInfo>, limit: nat, a: LabelInfo)
    requires a.op in {Not, And, Or, Xor, Add, Mul, Fmemcmp}
    requires a.op == Fmemcmp && a.l1 == a.l2 ==> a.op1 == a.op2
    ensures UnionOf(table, limit, Swapped(a)) == UnionOf(table, limit, a)
  {
    if a.l1 != a.l2 {
      assert Arranged(Swapped(a)) == Arranged(a);
    } else if a.l1 == 0 {
    } else {
      assert Erased(Swapped(a)) == Erased(a);
    }
    assert Prepare(table, Swapped(a)) == Prepare(table, a);
    hide Prepare;
  }

  /** Exactly there the order shows. */
  lemma {:induction false} OrderOfPieces(table: seq<LabelInfo>, limit: nat, a: LabelInfo)
    requires WellMade(table) && 0 < a.l1 == a.l2 < |table| < limit - 1 && limit <= INITIALIZING
    requires a.op == Fmemcmp && !IsBounds(table, a.l1) && a.op1 != a.op2
    ensures
      var first := UnionOf(table, limit, a);
      && first.Some? && UnionOf(first.value.table, limit, Swapped(a)).Some?
      && UnionOf(first.value.table, limit, Swapped(a)).value.id != first.value.id
  {
    var first := UnionOf(table, limit, a).value;
    assert Prepare(table, a) == Entry(a);
    StepKeeps(table, limit, Union(a));
    assert Prepare(first.table, Swapped(a)) == Entry(Swapped(a)) by {
      assert first.table[a.l1] == table[a.l1];
    }
    hide Prepare;
  }

  /** What a symbolic operand happened to be does not matter, except to compares, atoi and bounds. */
  lemma {:induction false} ConcreteIsIrrelevant(table: seq<LabelInfo>, limit: nat, a: LabelInfo, v1: nat, v2: nat)
    requires a.op !in {Alloca, Fatoi, Fmemcmp} && !a.op.ICmp?
    ensures UnionOf(table, limit, a.(op1 := if a.l1 >= CONST_OFFSET then v1 else a.op1,
                                     op2 := if a.l2 >= CONST_OFFSET then v2 else a.op2))
            == UnionOf(table, limit, a)
  {
    var b := a.(op1 := if a.l1 >= CONST_OFFSET then v1 else a.op1, op2 := if a.l2 >= CONST_OFFSET then v2 else a.op2);
    assert Erased(Arranged(b)) == Erased(Arranged(a));
    assert Prepare(table, b) == Prepare(table, a);
    hide Prepare;
  }

  // ---- when a label is made ----

  /** Operands that are labels in use, at least one of them symbolic, and no bounds. */
  predicate PlainOperands(table: seq<LabelInfo>, a: LabelInfo) {
    && a.l1 < |table| && (a.op == Load || a.l2 < |table|) && (a.l1 != 0 || a.l2 != 0 || a.op in {Fsize, Alloca})
    && table[a.l1].op != Alloca && (a.op == Load || table[a.l2].op != Alloca)
  }

  /** The operators that have no shorter form, with any operands. */
  predicate AlwaysRecorded(op: Op) {
    op.ICmp? || op.Other? || op in {Not, UDiv, SDiv, URem, SRem, Alloca, Free, Load, ZExt, SExt, PtrToInt, IntToPtr, BitCast,
                                    Extract, Concat, Fmemcmp, Fsize, Fatoi}
  }

  /** A constant that some operator absorbs or ignores. */
  predicate IsNeutral(k: nat, size: nat) {
    k == 0 || k == Pow2(size % 64) - 1
  }

  /** What is asked for is recorded as such: with its operands in order if they may be exchanged, and the concrete values of
      symbolic operands for bounds, compares, atoi and memcmp only. */
  predicate Records(m: Made, a: LabelInfo) {
    && 0 < m.id < |m.table|
    && var (e, swap) := (m.table[m.id], a.l1 > a.l2 && a.op in {Not, And, Or, Xor, Add, Mul, Fmemcmp});
    && e.op == a.op && e.size == a.size
    && (e.l1, e.l2) == (if swap then (a.l2, a.l1) else (a.l1, a.l2))
    && var (k1, k2) := if swap then (a.op2, a.op1) else (a.op1, a.op2);
       if a.op.ICmp? || a.op in {Alloca, Fatoi, Fmemcmp} then e.op1 == k1 && e.op2 == k2
       else e.op1 == (if e.l1 == 0 then k1 else 0) && e.op2 == if e.l2 == 0 then k2 else 0
  }

  /** There is no shorter form: for other operators there is one only with a neutral constant, for the exclusive or of a
      label with itself, and for the truncation of an extension. */
  predicate NoShorterForm(table: seq<LabelInfo>, a: LabelInfo)
    requires a.l1 < |table|
  {
    AlwaysRecorded(a.op) ||
    if a.op == Trunc then table[a.l1].op != ZExt && table[a.l1].op != SExt
    else
      && (a.l1 == 0 ==> !IsNeutral(a.op1, a.size)) && (a.l2 == 0 ==> !IsNeutral(a.op2, a.size))
      && (a.op == Xor ==> a.l1 != a.l2)
  }

  lemma {:induction false} NotShortened(table: seq<LabelInfo>, a: LabelInfo)
    requires a.l1 < |table| && NoShorterForm(table, a)
    ensures Simplify(table, Erased(Arranged(a))) == Entry(Erased(Arranged(a)))
  {
    hide Pow2;
    var b := Erased(Arranged(a));
    if AlwaysRecorded(a.op) {
      assert b.op == a.op;
      hide Arranged, Erased, FirstIsZero, FirstIsOnes, SecondIsZero;
    } else if a.op == Trunc {
      assert b.l1 == a.l1;
      hide FirstIsZero, FirstIsOnes, SecondIsZero;
    } else {
      assert b.l1 == 0 ==> !IsNeutral(b.op1, b.size);
      assert b.l2 == 0 ==> !IsNeutral(b.op2, b.size);
    }
  }

  lemma {:induction false} ArrangedRecords(m: Made, a: LabelInfo)
    requires 0 < m.id < |m.table| && m.table[m.id] == Erased(Arranged(a))
    ensures Records(m, a)
  {
  }

  /** A label is made for every operation on a symbolic operand, memcmp included, that has no shorter form. */
  lemma {:induction false} LabelIsMade(table: seq<LabelInfo>, limit: nat, a: LabelInfo)
    requires WellMade(table) && |table| < limit <= INITIALIZING && PlainOperands(table, a) && a.op != Input && a.op != Neg
    requires a.l2 < |table| && NoShorterForm(table, a)
    ensures UnionOf(table, limit, a).Some?
    ensures var m := UnionOf(table, limit, a).value; Records(m, a) && table <= m.table && |m.table| <= |table| + 1
  {
    hide UnionOf, Prepare, Simplify, Erased, Arranged, Records, NoShorterForm, WellMade;
    NotShortened(table, a);
    PreparedPlain(table, a);
    EntryMade(table, limit, a, Erased(Arranged(a)));
    ArrangedRecords(UnionOf(table, limit, a).value, a);
  }

  lemma {:induction false} PreparedPlain(table: seq<LabelInfo>, a: LabelInfo)
    requires |table| <= INITIALIZING && PlainOperands(table, a) && a.op != Input && a.op != Neg && a.l2 < |table|
    ensures Prepare(table, a) == Simplify(table, Erased(Arranged(a)))
    ensures var b := Erased(Arranged(a)); b.l1 < |table| && b.l2 < |table| && b.op != Input
  {
    hide Simplify, Erased;
    var b := Arranged(a);
    assert b.op == a.op && !IsBounds(table, b.l1) && (a.op == Load || !IsBounds(table, b.l2));
    ErasedKeeps(b);
  }

  lemma {:induction false} ErasedKeeps(a: LabelInfo)
    ensures var b := Erased(a); b.op == a.op && b.l1 == a.l1 && b.l2 == a.l2
  {
  }

  /** The entry looked for is found, or made. */
  lemma {:induction false} EntryMade(table: seq<LabelInfo>, limit: nat, a: LabelInfo, info: LabelInfo)
    requires WellMade(table) && |table| < limit && Prepare(table, a) == Entry(info)
    requires info.op != Input && info.l1 < |table| && info.l2 < |table|
    ensures UnionOf(table, limit, a).Some?
    ensures
      var m := UnionOf(table, limit, a).value;
      0 < m.id < |m.table| && m.table[m.id] == info && table <= m.table && |m.table| <= |table| + 1
  {
    hide Prepare;
    assert table[0].op == Input;
  }

  /** What is looked for or answered lies in the table. */
  lemma {:induction false} PrepareInRange(table: seq<LabelInfo>, a: LabelInfo)
    requires WellMade(table) && |table| <= INITIALIZING && InRange(table, a) && (a.op == Load ==> a.l2 < |table|)
    ensures
      match Prepare(table, a)
      case Known(l) => l < |table| || l == INITIALIZING
      case Entry(info) => info.l1 < |table| && info.l2 < |table| && info.op != Input
  {
    hide Pow2, Distinct, FirstIsZero, FirstIsOnes, SecondIsZero;
    var b := Arranged(a);
    ErasedKeeps(b);
    assert b.l1 < |table| && Undoes(table, Erased(b)) ==> table[b.l1].l1 < |table|;
    hide Erased, Arranged;
  }

  /** While there is room in the table, every call is answered. */
  lemma {:induction false} UnionSucceeds(table: seq<LabelInfo>, limit: nat, a: LabelInfo)
    requires WellMade(table) && |table| < limit <= INITIALIZING && InRange(table, a) && (a.op == Load ==> a.l2 < |table|)
    ensures UnionOf(table, limit, a).Some?
    ensures
      var m := UnionOf(table, limit, a).value;
      && WellMade(m.table) && table <= m.table && |m.table| <= |table| + 1
      && (m.id < |m.table| || m.id == INITIALIZING)
  {
    PrepareInRange(table, a);
    hide Prepare;
    StepKeeps(table, limit, Union(a));
    hide WellMade;
  }

  // ---- and when not ----

  /** The constant `k` is the only operand that is not the label `x`, on either side. */
  predicate WithConstant(a: LabelInfo, x: nat, k: nat) {
    (a.l1 == 0 && a.op1 == k && a.l2 == x) || (a.l2 == 0 && a.op2 == k && a.l1 == x)
  }

  /** Laws of operators whose operands may be exchanged: a constant on either side that needs no entry. */
  lemma {:induction false} NeutralConstants(table: seq<LabelInfo>, limit: nat, a: LabelInfo, x: nat)
    requires |table| <= INITIALIZING && PlainOperands(table, a) && a.l2 < |table| && 0 < x
    ensures a.op in {And, Mul} && WithConstant(a, x, 0) ==> UnionOf(table, limit, a) == Some(Made(0, table))
    ensures a.op in {Or, Xor, Add} && WithConstant(a, x, 0) ==> UnionOf(table, limit, a) == Some(Made(x, table))
    ensures 0 < a.size < 64 && a.op == And && WithConstant(a, x, Pow2(a.size) - 1) ==>
      UnionOf(table, limit, a) == Some(Made(x, table))
    ensures 0 < a.size < 64 && a.op == Or && WithConstant(a, x, Pow2(a.size) - 1) ==>
      UnionOf(table, limit, a) == Some(Made(0, table))
  {
    hide Pow2, Prepare, Simplify, Arranged, Erased;
    if a.op in {And, Or, Xor, Mul, Add} && (WithConstant(a, x, 0) || WithConstant(a, x, Pow2(a.size) - 1)) {
      PreparedPlain(table, a);
      ConstantFirst(a, x);
      if 0 < a.size { Pow2Monotone(1, a.size); Pow2Small(); }
      SimplifyNeutral(table, Erased(Arranged(a)));
    }
  }

  lemma {:induction false} ConstantFirst(a: LabelInfo, x: nat)
    requires a.op in {And, Or, Xor, Mul, Add} && 0 < x
    ensures forall k :: WithConstant(a, x, k) ==>
      var b := Erased(Arranged(a)); b.l1 == 0 && b.op1 == k && b.l2 == x && b.op == a.op && b.size == a.size
  {
  }

  lemma {:induction false} SimplifyNeutral(table: seq<LabelInfo>, b: LabelInfo)
    requires b.l1 == 0
    ensures b.op1 == 0 && b.op in {And, Mul} ==> Simplify(table, b) == Known(0)
    ensures b.op1 == 0 && b.op in {Or, Xor, Add} ==> Simplify(table, b) == Known(b.l2)
    ensures b.size < 64 && 0 < b.op1 == Pow2(b.size) - 1 && b.op == And ==> Simplify(table, b) == Known(b.l2)
    ensures b.size < 64 && 0 < b.op1 == Pow2(b.size) - 1 && b.op == Or ==> Simplify(table, b) == Known(0)
  {
    hide Pow2;
  }

  /** Laws of the other operators, and of a label combined with itself. */
  lemma {:induction false} NeutralOperands(table: seq<LabelInfo>, limit: nat, a: LabelInfo)
    requires |table| <= INITIALIZING && PlainOperands(table, a) && a.l2 < |table|
    ensures a.op in {Sub, Shl, LShr, AShr} && a.l2 == 0 == a.op2 ==> UnionOf(table, limit, a) == Some(Made(a.l1, table))
    ensures a.op == Shl && a.l1 == 0 == a.op1 ==> UnionOf(table, limit, a) == Some(Made(0, table))
    ensures a.op == Xor && a.l1 == a.l2 ==> UnionOf(table, limit, a) == Some(Made(0, table))
  {
    hide Pow2, Prepare;
    if a.op in {Sub, Shl, LShr, AShr, Xor} { PreparedPlain(table, a); }
  }

  /** A constant 1 in an exclusive or of one bit is recorded as a negation of the label. */
  lemma {:induction false} XorWithOne(table: seq<LabelInfo>, limit: nat, a: LabelInfo, x: nat)
    requires WellMade(table) && |table| < limit <= INITIALIZING && PlainOperands(table, a) && a.l2 < |table|
    requires a.op == Xor && a.size == 1 && 0 < x && WithConstant(a, x, 1)
    ensures UnionOf(table, limit, a).Some?
    ensures
      var m := UnionOf(table, limit, a).value;
      0 < m.id < |m.table| && m.table[m.id] == LabelInfo(0, x, 1, 0, Not, 1) && table <= m.table
  {
    hide UnionOf, Prepare, Simplify, Arranged, Erased, WellMade;
    PreparedPlain(table, a);
    ConstantFirst(a, x);
    OneBitNot(table, a, x);
    EntryMade(table, limit, a, LabelInfo(0, x, 1, 0, Not, 1));
  }

  lemma {:induction false} OneBitNot(table: seq<LabelInfo>, a: LabelInfo, x: nat)
    requires a.op == Xor && a.size == 1 && 0 < x && WithConstant(a, x, 1)
    ensures Simplify(table, Erased(Arranged(a))) == Entry(LabelInfo(0, x, 1, 0, Not, 1))
  {
    Pow2Small();
    hide Pow2, Undoes;
    assert Erased(Arranged(a)) == LabelInfo(0, x, 1, 0, Xor, 1);
  }

  /** Two calls that undo each other: a label that is extended and then truncated to its recorded size is itself. */
  lemma {:induction false} ExtendThenTruncate(table: seq<LabelInfo>, limit: nat, x: nat, op: Op, size: nat, k: nat, j: nat)
    requires WellMade(table) && |table| < limit <= INITIALIZING && 0 < x < |table| && table[x].op != Alloca
    requires op == ZExt || op == SExt
    ensures UnionOf(table, limit, LabelInfo(x, 0, k, 0, op, size)).Some?
    ensures
      var m := UnionOf(table, limit, LabelInfo(x, 0, k, 0, op, size)).value;
      UnionOf(m.table, limit, LabelInfo(m.id, 0, j, 0, Trunc, table[x].size)) == Some(Made(x, m.table))
  {
    hide Prepare, Simplify, Scan;
    var a := LabelInfo(x, 0, k, 0, op, size);
    LabelIsMade(table, limit, a);
    var m := UnionOf(table, limit, a).value;
    var b := LabelInfo(m.id, 0, j, 0, Trunc, table[x].size);
    assert m.table[x] == table[x] && m.table[m.id].l1 == x && table[0].op == Input;
    PreparedPlain(m.table, b);
    SimplifyTruncation(m.table, Erased(Arranged(b)));
  }

  lemma {:induction false} SimplifyTruncation(table: seq<LabelInfo>, b: LabelInfo)
    requires b.op == Trunc && b.l1 < |table| && (table[b.l1].op == ZExt || table[b.l1].op == SExt)
    requires table[b.l1].l1 < |table| && b.size == table[table[b.l1].l1].size
    ensures Simplify(table, b) == Known(table[b.l1].l1)
  {
    hide Pow2;
  }

  /** Operators that are not accepted, and operands that decide on their own: two constants, a label not yet initialised,
      and bounds, which only a cast passes on. */
  lemma {:induction false} SpecialOperands(table: seq<LabelInfo>, limit: nat, a: LabelInfo)
    requires WellMade(table) && |table| <= INITIALIZING
    ensures a.op in {Input, Neg} || (a.l1 == 0 == a.l2 && a.op !in {Fsize, Alloca}) ==>
      UnionOf(table, limit, a) == Some(Made(0, table))
    ensures (a.l1 == INITIALIZING || a.l2 == INITIALIZING) && a.op !in {Input, Neg} ==>
      UnionOf(table, limit, a) == Some(Made(INITIALIZING, table))
    ensures a.l1 < |table| && a.l2 < |table| && table[a.l1].op == Alloca && a.op == BitCast ==>
      UnionOf(table, limit, a) == Some(Made(a.l1, table))
    ensures a.l1 < |table| && a.l2 < |table| && (table[a.l1].op == Alloca || table[a.l2].op == Alloca) ==>
      a.op in {BitCast, Extract, Load} || UnionOf(table, limit, a) == Some(Made(0, table))
  {
    hide Simplify, Erased;
    assert table[0].op == Input;
  }

  // ---- the hash table ----

  /** The mixing function of three words; only its being a function matters. */
  type Mix = (nat, nat, Op, nat) -> nat

  /** The hash recorded for a label; memory behind the last label is zero. */
  function ChildHash(hashes: seq<nat>, l: nat): nat {
    if 0 < l < |hashes| then hashes[l] else 0
  }

  function HashOf(mix: Mix, hashes: seq<nat>, info: LabelInfo): nat {
    mix(ChildHash(hashes, info.l1), ChildHash(hashes, info.l2), info.op, info.size)
  }

  /** Where a label is filed. */
  predicate FiledIn(buckets: seq<seq<nat>>, hash: nat, l: nat)
    requires |buckets| > 0
  {
    l in buckets[hash % |buckets|]
  }

  class Table {
    var labels: seq<LabelInfo>
    var hashes: seq<nat>
    var buckets: seq<seq<nat>>
    const mix: Mix
    const limit: nat

    /** Every entry of __taint_union has its hash and is filed under it; nothing else is filed. */
    ghost predicate Filed()
      reads this`labels, this`hashes, this`buckets
    {
      && |hashes| == |labels| && |buckets| > 0
      && (forall l {:trigger labels[l]} :: 0 <= l < |labels| && labels[l].op != Input ==>
            hashes[l] == HashOf(mix, hashes, labels[l]) && FiledIn(buckets, hashes[l], l))
      && (forall b, k :: 0 <= b < |buckets| && 0 <= k < |buckets[b]| ==>
            buckets[b][k] < |labels| && labels[buckets[b][k]].op != Input)
    }

    ghost predicate Valid()
      reads this`labels, this`hashes, this`buckets
    {
      WellMade(labels) && |labels| <= limit <= INITIALIZING && Filed()
    }

    constructor (mix: Mix, bucketCount: nat, limit: nat)
      requires bucketCount > 0 && 0 < limit <= INITIALIZING
      ensures Valid() && labels == [CONST_ENTRY]
      ensures this.mix == mix && this.limit == limit
    {
      labels := [CONST_ENTRY];
      hashes := [0];
      buckets := seq(bucketCount, _ => []);
      this.mix := mix;
      this.limit := limit;
    }

    /** union_hashtable::lookup walks one bucket; that agrees with a scan of the whole table. */
    method Lookup(info: LabelInfo, hash: nat) returns (r: Option<nat>)
      requires Valid() && info.op != Input && hash == HashOf(mix, hashes, info)
      ensures r == Scan(labels, info)
    {
      var chain := buckets[hash % |buckets|];
      assert forall l :: 0 <= l < |labels| && labels[l] == info ==> FiledIn(buckets, hash, l);
      var k := 0;
      while k < |chain|
        invariant 0 <= k <= |chain|
        invariant forall j :: 0 <= j < k ==> labels[chain[j]] != info
      {
        if labels[chain[k]] == info {
          ScanUnique(labels, info, chain[k]);
          return Some(chain[k]);
        }
        k := k + 1;
      }
      return None;
    }

    /** union_hashtable::insert, with the label's entry written first. */
    method Append(info: LabelInfo, hash: nat, file: bool)
      requires Valid() && |labels| < limit && WellMade(labels + [info])
      requires if file then info.op != Input && hash == HashOf(mix, hashes, info) else info.op == Input
      modifies this`labels, this`hashes, this`buckets
      ensures Valid() && labels == old(labels) + [info]
    {
      var l := |labels|;
      ghost var was, before := labels, hashes;
      assert Ordered(labels + [info]);
      labels := labels + [info];
      hashes := hashes + [hash];
      if file {
        var b := hash % |buckets|;
        buckets := buckets[b := [l] + buckets[b]];
      }
      hide WellMade;
      forall k | 0 <= k < |labels| && labels[k].op != Input
        ensures hashes[k] == HashOf(mix, hashes, labels[k]) && FiledIn(buckets, hashes[k], k)
      {
        assert labels[k].l1 < k && labels[k].l2 < k;
        if k < l { assert labels[k] == was[k] && FiledIn(old(buckets), before[k], k); }
      }
    }

    /** dfsan_create_label */
    method CreateLabel(offset: nat) returns (r: Option<nat>)
      requires Valid()
      modifies this`labels, this`hashes, this`buckets
      ensures Valid()
      ensures
        match CreateOf(old(labels), limit, offset)
        case None => r == None && labels == old(labels)
        case Some(m) => r == Some(m.id) && labels == m.table
    {
      var l := |labels|;
      if l >= limit { return None; }
      StepKeeps(labels, limit, Create(offset));
      Append(InputInfo(offset), mix(offset, 0, Input, 8), false);
      r := Some(l);
    }

    /** __taint_union computes what a search of all entries would give. */
    method Union(a: LabelInfo) returns (r: Option<nat>)
      requires Valid() && InRange(labels, a)
      modifies this`labels, this`hashes, this`buckets
      ensures Valid()
      ensures
        match UnionOf(old(labels), limit, a)
        case None => r == None && labels == old(labels)
        case Some(m) => r == Some(m.id) && labels == m.table
    {
      var p := Prepare(labels, a);
      if p.Known? { return Some(p.id); }
      PreparedOp(labels, a);
      var hash := HashOf(mix, hashes, p.info);
      r := Lookup(p.info, hash);
      if r.Some? { return; }
      var l := |labels|;
      if l >= limit || l <= p.info.l1 || l <= p.info.l2 { return None; }
      StepKeeps(labels, limit, Call.Union(a));
      hide Prepare;
      Append(p.info, hash, true);
      r := Some(l);
    }
  }
}
