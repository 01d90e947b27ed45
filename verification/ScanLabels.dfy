/** parsers/rgd-parser.cpp, scan_labels: one forward pass over the label table that caches, for every label,
    an AST size, the number of comparisons in it and the set of input bytes it depends on. */
module ScanLabels {
  import opened Base
  import opened Labels

  /** An input byte: input id and offset. */
  type Byte = (nat, nat)

  // ---- flattening of (input id, offset) ----

  function Sum(sizes: seq<nat>): nat {
    if sizes == [] then 0 else Sum(sizes[..|sizes| - 1]) + sizes[|sizes| - 1]
  }

  ghost predicate IsByte(sizes: seq<nat>, b: Byte) {
    b.0 < |sizes| && b.1 < sizes[b.0]
  }

  function Flat(sizes: seq<nat>, b: Byte): nat
    requires b.0 <= |sizes|
  {
    Sum(sizes[..b.0]) + b.1
  }

  /** input_to_dep_idx */
  method InputToDepIdx(sizes: seq<nat>, id: nat, offset: nat) returns (idx: nat)
    requires id <= |sizes|
    ensures idx == Flat(sizes, (id, offset))
  {
    idx := 0;
    for i := 0 to id
      invariant idx == Sum(sizes[..i])
    {
      assert sizes[..i + 1][..i] == sizes[..i];
      idx := idx + sizes[i];
    }
    idx := idx + offset;
  }

  lemma {:induction false} SumMonotone(sizes: seq<nat>, i: nat, j: nat)
    requires i < j <= |sizes|
    ensures Sum(sizes[..i]) + sizes[i] <= Sum(sizes[..j])
    decreases j
  {
    assert sizes[..j][..j - 1] == sizes[..j - 1];
    if i + 1 < j { SumMonotone(sizes, i, j - 1); }
  }

  /** Flattening numbers the bytes of all inputs without gaps outside the total size and without collisions. */
  lemma {:induction false} FlatInjective(sizes: seq<nat>, a: Byte, b: Byte)
    requires IsByte(sizes, a) && IsByte(sizes, b)
    ensures Flat(sizes, a) < Sum(sizes)
    ensures Flat(sizes, a) == Flat(sizes, b) <==> a == b
  {
    assert sizes[..|sizes|] == sizes;
    SumMonotone(sizes, a.0, |sizes|);
    if a.0 < b.0 { SumMonotone(sizes, a.0, b.0); }
    if b.0 < a.0 { SumMonotone(sizes, b.0, a.0); }
  }

  // ---- what the pass should compute, by recursion over the labels ----

  /** The bytes a Load label reads: l2 consecutive bytes from the byte of its first operand. */
  ghost function LoadBytes(table: seq<LabelInfo>, l: nat): set<Byte>
    requires Ordered(table) && 0 < l < |table|
  {
    set k: nat | k < table[l].l2 :: Nth(table[table[l].l1], k)
  }

  /** The byte `k` places after a raw input byte. */
  function Nth(first: LabelInfo, k: nat): Byte {
    (first.op2, first.op1 + k)
  }

  /** All input bytes reachable from label `l`. */
  ghost function Reach(table: seq<LabelInfo>, l: nat): set<Byte>
    requires Ordered(table) && l < |table|
    decreases l
  {
    if l == 0 then {}
    else if table[l].op == Input then {(table[l].op2, table[l].op1)}
    else if table[l].op == Load then LoadBytes(table, l)
    else Reach(table, table[l].l1) + Reach(table, table[l].l2)
  }

  /** The number of comparisons in the unfolded expression. */
  function CmpCount(table: seq<LabelInfo>, l: nat): nat
    requires Ordered(table) && l < |table|
    decreases l
  {
    if l == 0 || table[l].op == Input || table[l].op == Load then 0
    else
      CmpCount(table, table[l].l1) + CmpCount(table, table[l].l2) + B(table[l].op.ICmp? || table[l].op == Fmemcmp)
  }

  /** The AST size cached for label `l`: one node, or those of both operands and one more, on 32 bits. */
  function ScanSize(table: seq<LabelInfo>, size: seq<nat>, l: nat): nat
    requires Ordered(table) && l < |table| && l <= |size|
  {
    var info := table[l];
    if l == 0 || info.op == Input || info.op == Load then 1
    else ((if info.l1 == 0 then 1 else size[info.l1]) + (if info.l2 == 0 then 1 else size[info.l2]) + 1) % WRAP32
  }

  /** The checks on label `l` without which the pass gives up. */
  predicate Acceptable(table: seq<LabelInfo>, sizes: seq<nat>, l: nat)
    requires Ordered(table) && 0 < l < |table|
  {
    var info := table[l];
    if info.op == Input then info.op2 < |sizes| && info.op1 < sizes[info.op2]
    else if info.op == Load then
      table[info.l1].op2 < |sizes| && table[info.l1].op1 + info.l2 <= sizes[table[info.l1].op2]
    else true
  }

  /** A label is refused if and only if it is a read and reads a byte that lies in no input. */
  lemma {:induction false} AcceptableIff(table: seq<LabelInfo>, sizes: seq<nat>, l: nat)
    requires Ordered(table) && 0 < l < |table| && (table[l].op == Load ==> table[l].l2 > 0)
    ensures Acceptable(table, sizes, l) <==>
      (table[l].op == Input || table[l].op == Load ==> forall b :: b in Reach(table, l) ==> IsByte(sizes, b))
  {
    if table[l].op == Input {
      assert (table[l].op2, table[l].op1) in Reach(table, l);
    } else if table[l].op == Load {
      var first, n := table[table[l].l1], table[l].l2;
      assert Nth(first, n - 1) in Reach(table, l);
    }
  }

  /** Every byte reachable from an accepted table lies in an input. */
  lemma {:induction false} ReachInInputs(table: seq<LabelInfo>, sizes: seq<nat>, l: nat, b: Byte)
    requires Ordered(table) && l < |table| && b in Reach(table, l)
    requires forall k :: 0 < k <= l ==> Acceptable(table, sizes, k)
    ensures IsByte(sizes, b)
    decreases l
  {
    assert Acceptable(table, sizes, l);
    if table[l].op != Input && table[l].op != Load {
      if b in Reach(table, table[l].l1) { ReachInInputs(table, sizes, table[l].l1, b); }
      else { ReachInInputs(table, sizes, table[l].l2, b); }
    }
  }

  ghost predicate IdsOk(sizes: seq<nat>, bs: set<Byte>) {
    forall b :: b in bs ==> b.0 <= |sizes|
  }

  ghost function FlatSet(sizes: seq<nat>, bs: set<Byte>): set<nat>
    requires IdsOk(sizes, bs)
  {
    set b | b in bs :: Flat(sizes, b)
  }

  /** The caches agree with the recursive definitions on the labels scanned so far. */
  ghost predicate CachesOk(table: seq<LabelInfo>, sizes: seq<nat>, nest: seq<nat>, bytes: seq<set<nat>>)
    requires Ordered(table)
  {
    && |nest| == |bytes| <= |table|
    && forall l :: 0 <= l < |nest| ==>
      && nest[l] == CmpCount(table, l) % WRAP8
      && IdsOk(sizes, Reach(table, l)) && bytes[l] == FlatSet(sizes, Reach(table, l))
  }

  /** The n numbers from `start` on. */
  ghost function Run(start: nat, n: nat): (r: set<nat>)
    ensures forall x: nat :: x in r <==> start <= x < start + n
  {
    if n == 0 then {} else Run(start, n - 1) + {start + n - 1}
  }

  /** The loop that sets the bits of a Load. */
  method SetBits(idx: nat, n: nat) returns (bits: set<nat>)
    ensures bits == Run(idx, n)
  {
    bits := {};
    for k := 0 to n
      invariant bits == Run(idx, k)
    {
      bits := bits + {idx + k};
    }
  }

  /** The next label may be cached with these values. */
  ghost predicate EntryOk(table: seq<LabelInfo>, sizes: seq<nat>, l: nat, nested: nat, bits: set<nat>)
    requires Ordered(table) && l < |table|
  {
    && nested == CmpCount(table, l) % WRAP8
    && IdsOk(sizes, Reach(table, l)) && bits == FlatSet(sizes, Reach(table, l))
  }

  lemma {:induction false} CachesExtend(table: seq<LabelInfo>, sizes: seq<nat>, nest: seq<nat>, bytes: seq<set<nat>>,
                                        nested: nat, bits: set<nat>)
    requires Ordered(table) && CachesOk(table, sizes, nest, bytes) && |nest| < |table|
    requires EntryOk(table, sizes, |nest|, nested, bits)
    ensures CachesOk(table, sizes, nest + [nested], bytes + [bits])
  {
  }

  lemma {:induction false} FirstEntry(table: seq<LabelInfo>, sizes: seq<nat>)
    requires Ordered(table)
    ensures EntryOk(table, sizes, 0, 0, {})
  {
    assert FlatSet(sizes, {}) == {};
  }

  lemma {:induction false} ConstantEntry(table: seq<LabelInfo>, sizes: seq<nat>, nest: seq<nat>, bytes: seq<set<nat>>)
    requires Ordered(table) && CachesOk(table, sizes, nest, bytes) && |nest| > 0
    ensures nest[0] == 0 && bytes[0] == {}
  {
    assert FlatSet(sizes, {}) == {};
  }

  lemma {:induction false} CountEntry(table: seq<LabelInfo>, sizes: seq<nat>, nest: seq<nat>, bytes: seq<set<nat>>, l: nat)
    requires Ordered(table) && CachesOk(table, sizes, nest, bytes) && l < |nest| && CmpCount(table, l) < WRAP8
    ensures nest[l] == CmpCount(table, l)
  {
  }

  lemma {:induction false} InputEntry(table: seq<LabelInfo>, sizes: seq<nat>, l: nat)
    requires Ordered(table) && 0 < l < |table| && table[l].op == Input && Acceptable(table, sizes, l)
    ensures EntryOk(table, sizes, l, 0, {Flat(sizes, (table[l].op2, table[l].op1))})
  {
  }

  lemma {:induction false} LoadEntry(table: seq<LabelInfo>, sizes: seq<nat>, l: nat, bits: set<nat>)
    requires Ordered(table) && 0 < l < |table| && table[l].op == Load && Acceptable(table, sizes, l)
    requires bits == Run(Flat(sizes, (table[table[l].l1].op2, table[table[l].l1].op1)), table[l].l2)
    ensures EntryOk(table, sizes, l, 0, bits)
  {
    var first := table[table[l].l1];
    var reach := Reach(table, l);
    var start := Flat(sizes, (first.op2, first.op1));
    forall k: nat | k < table[l].l2
      ensures Nth(first, k) in reach && Flat(sizes, Nth(first, k)) == start + k
    {
    }
    forall x: nat
      ensures x in bits <==> x in FlatSet(sizes, reach)
    {
      if x in bits {
        assert Nth(first, x - start) in reach && Flat(sizes, Nth(first, x - start)) == x;
      }
    }
    assert bits == FlatSet(sizes, reach);
  }

  lemma {:induction false} OperatorEntry(table: seq<LabelInfo>, sizes: seq<nat>, nest: seq<nat>, bytes: seq<set<nat>>, l: nat)
    requires Ordered(table) && CachesOk(table, sizes, nest, bytes) && 0 < l == |nest| < |table|
    requires table[l].op != Input && table[l].op != Load
    ensures EntryOk(table, sizes, l, (nest[table[l].l1] + nest[table[l].l2] + B(IsCompare(table[l].op))) % WRAP8,
                    bytes[table[l].l1] + bytes[table[l].l2])
  {
    hide CmpCount, Reach, FlatSet, IdsOk;
    var x, y := table[l].l1, table[l].l2;
    OperatorIs(table, l);
    OperatorIds(sizes, Reach(table, x), Reach(table, y));
    FlatUnion(sizes, Reach(table, x), Reach(table, y));
    WrapSum(CmpCount(table, x), CmpCount(table, y), B(IsCompare(table[l].op)));
  }

  lemma {:induction false} OperatorIs(table: seq<LabelInfo>, l: nat)
    requires Ordered(table) && 0 < l < |table| && table[l].op != Input && table[l].op != Load
    ensures CmpCount(table, l) == CmpCount(table, table[l].l1) + CmpCount(table, table[l].l2) + B(IsCompare(table[l].op))
    ensures Reach(table, l) == Reach(table, table[l].l1) + Reach(table, table[l].l2)
  {
  }

  lemma {:induction false} OperatorIds(sizes: seq<nat>, xs: set<Byte>, ys: set<Byte>)
    requires IdsOk(sizes, xs) && IdsOk(sizes, ys)
    ensures IdsOk(sizes, xs + ys)
  {
  }

  lemma {:induction false} FlatUnion(sizes: seq<nat>, xs: set<Byte>, ys: set<Byte>)
    requires IdsOk(sizes, xs) && IdsOk(sizes, ys)
    ensures FlatSet(sizes, xs + ys) == FlatSet(sizes, xs) + FlatSet(sizes, ys)
  {
  }

  lemma {:induction false} WrapSum(x: nat, y: nat, z: nat)
    ensures (x % WRAP8 + y % WRAP8 + z) % WRAP8 == (x + y + z) % WRAP8
  {
  }
}
