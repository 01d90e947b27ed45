/** What solving an index task of the Z3 parser does to labels (solvers/z3-ts.cpp, parse_gep): the symbolic index takes the
    value the task asks for, or moves the address there. */
module IndexMeaning {
  import opened Base
  import opened Labels
  import opened Z3Expr
  import opened Slicing
  import Z = Z3Parser
  import V = LabelValues
  import M = Z3Meaning

  /** Addition and multiplication on 64 bits wrap around. */
  ghost predicate WrapsAround(m: ArithMeaning) {
    forall x: nat, y: nat ::
      m(Add, 64, x, y) % WRAP64 == (x + y) % WRAP64 && m(Mul, 64, x, y) % WRAP64 == Times(x, y) % WRAP64
  }

  /** Multiples of the modulus do not matter. */
  lemma {:induction false} ModShift(x: int, k: int)
    ensures (x + k * WRAP64) % WRAP64 == x % WRAP64
  {
  }

  lemma {:induction false} ModPlus(x: int, y: int)
    ensures (x % WRAP64 + y) % WRAP64 == (x + y) % WRAP64
  {
    ModShift(x % WRAP64 + y, x / WRAP64);
  }

  lemma {:induction false} ModTimes(x: int, y: int)
    ensures (x * (y % WRAP64)) % WRAP64 == (x * y) % WRAP64
  {
    var q, r := y / WRAP64, y % WRAP64;
    assert y == q * WRAP64 + r;
    Scaled(x, q, r);
    ModShift(x * r, x * q);
  }

  lemma {:induction false} Scaled(x: int, q: int, r: int)
    ensures x * (q * WRAP64 + r) == x * r + x * q * WRAP64
  {
  }

  /** idx * elemSize + offset + ptr, as the machine computes it. */
  function AddressOf(x: nat, elemSize: nat, offset: int, ptr: nat): nat {
    (x * elemSize + offset + ptr) % WRAP64
  }

  /** An operator on 64 bits with a constant. */
  lemma {:induction false} ConstantOperand(m: ArithMeaning, input: Input, op: Op, x: Expr, k: nat)
    requires SortOf(Arith(op, x, BvVal(k, 64))).Some? && WrapsAround(m)
    ensures SortOf(x) == Some(BvSort(64)) == SortOf(Arith(op, x, BvVal(k, 64)))
    ensures op == Add ==> Eval(m, input, Arith(op, x, BvVal(k, 64))) == (Eval(m, input, x) + k) % WRAP64
    ensures op == Mul ==> Eval(m, input, Arith(op, x, BvVal(k, 64))) == (Eval(m, input, x) * k) % WRAP64
  {
    hide Pow2;
    Pow2Of64();
    var v, c := Eval(m, input, x), BvVal(k, 64);
    assert SortOf(c) == Some(BvSort(64)) && Eval(m, input, c) == k % WRAP64;
    assert Bits(x) == 64;
    assert Eval(m, input, Arith(op, x, c)) == m(op, 64, v, k % WRAP64) % WRAP64;
    ModPlus(k, v);
    ModTimes(v, k);
    assert m(Add, 64, v, k % WRAP64) % WRAP64 == (v + k % WRAP64) % WRAP64;
    assert m(Mul, 64, v, k % WRAP64) % WRAP64 == Times(v, k % WRAP64) % WRAP64;
  }

  /** The address that is built for an index has the value of the address. */
  lemma {:induction false} AddressMeans(m: ArithMeaning, input: Input, idx: Expr, elemSize: nat, offset: int, ptr: nat)
    requires SortOf(Z.Address(idx, elemSize, offset, ptr)).Some? && WrapsAround(m)
    ensures Eval(m, input, Z.Address(idx, elemSize, offset, ptr)) == AddressOf(Eval(m, input, idx), elemSize, offset, ptr)
  {
    hide Eval, WrapsAround;
    var v := Eval(m, input, idx);
    var scaled := Arith(Mul, idx, BvVal(elemSize, 64));
    var moved := Arith(Add, scaled, BvVal(offset % WRAP64, 64));
    assert SortOf(moved).Some? && SortOf(scaled).Some?;
    ConstantOperand(m, input, Mul, idx, elemSize);
    ConstantOperand(m, input, Add, scaled, offset % WRAP64);
    ConstantOperand(m, input, Add, moved, ptr);
    AddressSteps(v * elemSize, offset, ptr);
  }

  lemma {:induction false} AddressSteps(x: nat, offset: int, ptr: nat)
    ensures ((x % WRAP64 + offset % WRAP64) % WRAP64 + ptr) % WRAP64 == (x + offset + ptr) % WRAP64
  {
    ModPlus(x, offset % WRAP64);
    ModPlus(offset, x);
    ModPlus(x + offset, ptr);
  }

  /** A true equation with a 64-bit constant. */
  lemma {:induction false} GoalMeans(m: ArithMeaning, input: Input, x: Expr, i: nat)
    requires True(m, input, Equals(x, BvVal(i, 64)))
    ensures Eval(m, input, x) == i % WRAP64
  {
    hide Pow2;
    Pow2Of64();
    assert Eval(m, input, BvVal(i, 64)) == i % WRAP64;
    assert Eval(m, input, Equals(x, BvVal(i, 64))) == B(Eval(m, input, x) == Eval(m, input, BvVal(i, 64)));
  }

  lemma {:induction false} ExtendedIndex(m: ArithMeaning, input: Input, e: Expr, k: nat)
    ensures Eval(m, input, Zext(e, k)) == Eval(m, input, e)
  {
  }

  /** A model of an index task over a known number of elements gives the index label the value asked for; every label
      recorded on the path keeps its own. */
  lemma {:induction false} SolutionsSetIndex(p: Z.Parser, id: nat, w: V.World, model: Model, l: nat, k: nat, i: nat)
    requires p.Valid() && Z.Fair(w, p.table, p.contents) && id in p.tasks && 0 < l < |p.exprs| && p.exprs[l].Some?
    requires p.tasks[id] != [] && p.tasks[id][0] == Equals(Zext(p.exprs[l].value, k), BvVal(i, 64))
    requires IsModel(w.arith, p.tasks[id], model) && forall e :: e in p.path[id] ==> True(w.arith, w.input, e)
    ensures Ordered(p.table) && |p.exprs| <= |p.table| && id in p.path
    ensures
      var v := w.(input := Patched(w.input, model));
      V.Value(v, p.table, l) == i % WRAP64 && p.KeepsLabels(id, w, v)
  {
    hide True, Eval, V.Value, SortOf, IsModel, Z.Fair;
    p.SolutionsKeepLabels(id, w, model);
    var input := Patched(w.input, model);
    GoalMeans(w.arith, input, Zext(p.exprs[l].value, k), i);
    ExtendedIndex(w.arith, input, p.exprs[l].value, k);
  }

  /** A model of an index task over the addresses of a buffer moves the address, computed from the index label, to the one
      asked for; every label recorded on the path keeps its value. */
  lemma {:induction false} SolutionsSetAddress(p: Z.Parser, id: nat, w: V.World, model: Model, l: nat, k: nat,
                                               elemSize: nat, offset: int, ptr: nat, i: nat)
    requires p.Valid() && Z.Fair(w, p.table, p.contents) && id in p.tasks && 0 < l < |p.exprs| && p.exprs[l].Some?
    requires WrapsAround(w.arith) && SortOf(Z.Address(Zext(p.exprs[l].value, k), elemSize, offset, ptr)).Some?
    requires p.tasks[id] != []
    requires p.tasks[id][0] == Equals(Z.Address(Zext(p.exprs[l].value, k), elemSize, offset, ptr), BvVal(i, 64))
    requires IsModel(w.arith, p.tasks[id], model) && forall e :: e in p.path[id] ==> True(w.arith, w.input, e)
    ensures Ordered(p.table) && |p.exprs| <= |p.table| && id in p.path
    ensures
      var v := w.(input := Patched(w.input, model));
      AddressOf(V.Value(v, p.table, l), elemSize, offset, ptr) == i % WRAP64 && p.KeepsLabels(id, w, v)
  {
    hide True, Eval, V.Value, SortOf, IsModel, Z.Fair, Z.Address, AddressOf, WrapsAround;
    p.SolutionsKeepLabels(id, w, model);
    var input, idx := Patched(w.input, model), Zext(p.exprs[l].value, k);
    GoalMeans(w.arith, input, Z.Address(idx, elemSize, offset, ptr), i);
    AddressMeans(w.arith, input, idx, elemSize, offset, ptr);
    ExtendedIndex(w.arith, input, p.exprs[l].value, k);
  }
}
