/** parsers/rgd-parser.cpp: the nodes a label needs and the AST size cached for it, through scan_labels and the
    concretization of oversized comparisons. */
module AstSizes {
  import opened Base
  import L = Labels
  import opened FindRoots
  import S = ScanLabels

  // ---- how many nodes a label takes ----

  predicate IsUnary(op: L.Op) {
    op == L.ZExt || op == L.SExt || op == L.Extract || op == L.Trunc
  }

  /** concretize_node: only the left operand, or only the right one, is taken as a constant. */
  predicate LeftFixed(conc: map<nat, (bool, bool)>, l: nat) {
    l in conc && conc[l] == (true, false)
  }

  predicate RightFixed(conc: map<nat, (bool, bool)>, l: nat) {
    l in conc && conc[l] == (false, true)
  }

  /** The nodes that do_uta_rel makes for label `l` if it has to expand everything. */
  function Cost(table: seq<L.LabelInfo>, conc: map<nat, (bool, bool)>, l: nat): (n: nat)
    requires L.Ordered(table) && l < |table|
    ensures n > 0
    decreases l
  {
    if l == 0 then 1
    else
      var info := table[l];
      if info.op == L.Input || info.op == L.Load || info.op == L.Fatoi then 1
      else if info.op == L.Fmemcmp then
        1 + Cost(table, conc, info.l1) + Cost(table, conc, info.l2)
      else
        1 + (if LeftFixed(conc, l) then 1 else Cost(table, conc, info.l1))
        + (if IsUnary(info.op) then 0 else if RightFixed(conc, l) then 1 else Cost(table, conc, info.l2))
  }

  predicate IsRead(op: L.Op) {
    op == L.Input || op == L.Load
  }

  /** The size that scan_labels would give label `l` if sums had no limit and nothing was concretized. */
  function Full(table: seq<L.LabelInfo>, l: nat): (n: nat)
    requires L.Ordered(table) && l < |table|
    ensures n > 0
    decreases l
  {
    if l == 0 || IsRead(table[l].op) then 1 else Full(table, table[l].l1) + Full(table, table[l].l2) + 1
  }

  /** No comparison that might be concretized at or below `l`. */
  predicate Pure(table: seq<L.LabelInfo>, l: nat)
    requires L.Ordered(table) && l < |table|
    decreases l
  {
    l == 0 || IsRead(table[l].op) || (!table[l].op.ICmp? && Pure(table, table[l].l1) && Pure(table, table[l].l2))
  }

  /** A comparison of operands without comparisons. */
  predicate IsLeaf(table: seq<L.LabelInfo>, l: nat)
    requires L.Ordered(table) && l < |table|
  {
    l > 0 && L.IsCompare(table[l].op) && Pure(table, table[l].l1) && Pure(table, table[l].l2)
  }

  /** Only comparisons of scanned labels are concretized. */
  ghost predicate OnlyCompares(table: seq<L.LabelInfo>, conc: map<nat, (bool, bool)>, n: nat) {
    n <= |table| && forall l :: l in conc ==> l < n && table[l].op.ICmp?
  }

  lemma {:induction false} PureCost(table: seq<L.LabelInfo>, conc: map<nat, (bool, bool)>, n: nat, l: nat)
    requires L.Ordered(table) && l < |table| && OnlyCompares(table, conc, n) && Pure(table, l)
    ensures Cost(table, conc, l) <= Full(table, l)
    decreases l
  {
    if l > 0 && !IsRead(table[l].op) {
      PureCost(table, conc, n, table[l].l1);
      PureCost(table, conc, n, table[l].l2);
    }
  }

  // ---- what the cached sizes are ----

  /** The operands of label `l` that have been concretized. */
  function Fixed(conc: map<nat, (bool, bool)>, l: nat): (bool, bool) {
    if l in conc then conc[l] else (false, false)
  }

  /** The nodes of a comparison with operands of `x` and `y` nodes, some of them taken as constants. */
  function LeafSize(x: nat, y: nat, which: (bool, bool)): nat {
    1 + (if which.0 then 1 else x) + (if which.1 then 1 else y)
  }

  /** Operands over the limit. */
  function Over(x: nat, y: nat, maxSize: nat): (bool, bool) {
    (x > maxSize, y > maxSize)
  }

  /** A leaf comparison has been concretized where its operands are over the limit or not at all, and its size is exact
      unless it was reduced a second time, which only happens when the first reduction leaves it over the limit. */
  ghost predicate LeafKept(x: nat, y: nat, maxSize: nat, size: nat, which: (bool, bool), again: bool) {
    && (which == (false, false) || which == Over(x, y, maxSize))
    && (if again then which != (false, false) && LeafSize(x, y, which) > maxSize else size == LeafSize(x, y, which))
  }

  ghost predicate SizeKept(table: seq<L.LabelInfo>, size: seq<nat>, conc: map<nat, (bool, bool)>, maxSize: nat,
                           twice: set<nat>, l: nat)
    requires L.Ordered(table) && l < |size| <= |table|
  {
    Full(table, l) < WRAP32 ==>
      && (Pure(table, l) ==> size[l] == Full(table, l))
      && (IsLeaf(table, l) ==>
            LeafKept(Full(table, table[l].l1), Full(table, table[l].l2), maxSize, size[l], Fixed(conc, l), l in twice))
  }

  /** What holds of ast_size_cache and concretize_node at all times; `twice` are the labels that were reduced again after
      they had been concretized. */
  ghost predicate SizesKept(table: seq<L.LabelInfo>, size: seq<nat>, conc: map<nat, (bool, bool)>, maxSize: nat,
                            twice: set<nat>)
  {
    && L.Ordered(table) && |size| <= |table| && OnlyCompares(table, conc, |size|)
    && (forall l :: l in twice ==> l < |size|)
    && forall l :: 0 <= l < |size| ==> SizeKept(table, size, conc, maxSize, twice, l) && size[l] < WRAP32
  }

  lemma {:induction false} NoSizes(table: seq<L.LabelInfo>, maxSize: nat)
    requires L.Ordered(table)
    ensures SizesKept(table, [], map[], maxSize, {})
  {
  }

  lemma {:induction false} FullOf(table: seq<L.LabelInfo>, l: nat)
    requires L.Ordered(table) && 0 < l < |table| && !IsRead(table[l].op)
    ensures Full(table, l) == Full(table, table[l].l1) + Full(table, table[l].l2) + 1
    ensures Full(table, 0) == 1 && Pure(table, 0)
    ensures Pure(table, l) ==> Pure(table, table[l].l1) && Pure(table, table[l].l2)
  {
  }

  /** scan_labels: the size of a new label is exact unless the 32-bit sum wraps around. */
  lemma {:induction false} NewSize(table: seq<L.LabelInfo>, size: seq<nat>, conc: map<nat, (bool, bool)>, maxSize: nat,
                                   twice: set<nat>, l: nat)
    requires SizesKept(table, size, conc, maxSize, twice) && l == |size| < |table|
    requires Full(table, l) < WRAP32 && (Pure(table, l) || IsLeaf(table, l))
    ensures S.ScanSize(table, size, l) == Full(table, l)
  {
    if l > 0 && !IsRead(table[l].op) {
      var x, y := table[l].l1, table[l].l2;
      FullOf(table, l);
      assert SizeKept(table, size, conc, maxSize, twice, x) && SizeKept(table, size, conc, maxSize, twice, y);
      assert SizeKept(table, size, conc, maxSize, twice, 0);
      hide Full, Pure, SizesKept;
      ModSmall(Full(table, l), WRAP32);
    }
  }

  lemma {:induction false} ScanKeeps(table: seq<L.LabelInfo>, size: seq<nat>, conc: map<nat, (bool, bool)>, maxSize: nat,
                                     twice: set<nat>)
    requires SizesKept(table, size, conc, maxSize, twice) && |size| < |table|
    ensures SizesKept(table, size + [S.ScanSize(table, size, |size|)], conc, maxSize, twice)
  {
    var l := |size|;
    var later := size + [S.ScanSize(table, size, l)];
    assert S.ScanSize(table, size, l) < WRAP32;
    if Full(table, l) < WRAP32 && (Pure(table, l) || IsLeaf(table, l)) {
      NewSize(table, size, conc, maxSize, twice, l);
      if IsLeaf(table, l) { FullOf(table, l); }
    }
    hide Full, Pure, S.ScanSize;
    forall k | 0 <= k < |later| ensures SizeKept(table, later, conc, maxSize, twice, k) && later[k] < WRAP32 {
      if k < l { assert SizeKept(table, size, conc, maxSize, twice, k); }
    }
  }

  // ---- concretization ----

  /** The labels reduced again when `l` is. */
  function Twice(conc: map<nat, (bool, bool)>, twice: set<nat>, l: nat): set<nat> {
    if Fixed(conc, l) != (false, false) then twice + {l} else twice
  }

  /** One reduction of a leaf comparison over the limit. */
  lemma {:induction false} ReduceLeaf(x: nat, y: nat, maxSize: nat, size: nat, which: (bool, bool), again: bool)
    requires LeafKept(x, y, maxSize, size, which, again) && x > 0 && y > 0 && x + y + 1 < WRAP32 && maxSize < size
    ensures
      var over := Over(x, y, maxSize);
      var s1 := if over.0 then (size - (x - 1)) % WRAP32 else size;
      var s2 := if over.1 then (s1 - (y - 1)) % WRAP32 else s1;
      LeafKept(x, y, maxSize, s2, (which.0 || over.0, which.1 || over.1), which != (false, false))
  {
    var over := Over(x, y, maxSize);
    if which == (false, false) {
      if over.0 { ModSmall(size - (x - 1), WRAP32); }
      if over.1 { ModSmall((if over.0 then size - (x - 1) else size) - (y - 1), WRAP32); }
    }
  }

  /** The state of a leaf comparison. */
  lemma {:induction false} LeafIs(c: Config, twice: set<nat>, l: nat)
    requires SizesKept(c.table, c.size, c.concretize, c.maxSize, twice) && l < |c.size|
    requires IsLeaf(c.table, l) && Full(c.table, l) < WRAP32
    ensures
      var x, y := c.table[l].l1, c.table[l].l2;
      && c.size[x] == Full(c.table, x) && c.size[y] == Full(c.table, y) && c.size[x] + c.size[y] + 1 < WRAP32
      && LeafKept(c.size[x], c.size[y], c.maxSize, c.size[l], Fixed(c.concretize, l), l in twice)
      && (Fixed(c.concretize, l) == (false, false) ==> l !in twice) && x < l && y < l
  {
    var x, y := c.table[l].l1, c.table[l].l2;
    FullOf(c.table, l);
    hide Full, Pure;
    assert SizeKept(c.table, c.size, c.concretize, c.maxSize, twice, x);
    assert SizeKept(c.table, c.size, c.concretize, c.maxSize, twice, y);
    assert SizeKept(c.table, c.size, c.concretize, c.maxSize, twice, l);
  }

  /** The reduced label itself. */
  lemma {:induction false} ReducedIsKept(c: Config, twice: set<nat>, l: nat)
    requires Scanned(c) && SizesKept(c.table, c.size, c.concretize, c.maxSize, twice)
    requires 0 < l < |c.size| && c.table[l].op.ICmp? && c.size[l] > c.maxSize
    ensures
      var (n, which) := Concretized(c, l);
      && n < WRAP32
      && SizeKept(c.table, c.size[l := n], c.concretize[l := which], c.maxSize, Twice(c.concretize, twice, l), l)
  {
    hide Full, Pure, LeafKept, SizesKept, IsLeaf;
    CompareIs(c, twice, l);
    ReducedRange(c, l);
    if IsLeaf(c.table, l) && Full(c.table, l) < WRAP32 {
      var x, y := c.table[l].l1, c.table[l].l2;
      LeafIs(c, twice, l);
      ReduceLeaf(c.size[x], c.size[y], c.maxSize, c.size[l], Fixed(c.concretize, l), l in twice);
    }
  }

  lemma {:induction false} CompareIs(c: Config, twice: set<nat>, l: nat)
    requires Scanned(c) && SizesKept(c.table, c.size, c.concretize, c.maxSize, twice)
    requires 0 < l < |c.size| && c.table[l].op.ICmp?
    ensures !Pure(c.table, l) && c.size[l] < WRAP32
  {
  }

  /** Other labels. */
  lemma {:induction false} OthersAreKept(table: seq<L.LabelInfo>, size: seq<nat>, conc: map<nat, (bool, bool)>, maxSize: nat,
                                         twice: set<nat>, l: nat, n: nat, which: (bool, bool), k: nat)
    requires L.Ordered(table) && l < |size| <= |table| && k < |size| && k != l
    requires SizeKept(table, size, conc, maxSize, twice, k)
    ensures SizeKept(table, size[l := n], conc[l := which], maxSize, Twice(conc, twice, l), k)
  {
    hide Full, Pure, LeafKept;
  }

  /** find_roots, on an oversized comparison, keeps all sizes as described. */
  lemma {:induction false} ReduceKeeps(c: Config, twice: set<nat>, l: nat)
    requires Scanned(c) && SizesKept(c.table, c.size, c.concretize, c.maxSize, twice)
    requires 0 < l < |c.size| && c.table[l].op.ICmp? && c.size[l] > c.maxSize
    ensures
      var (n, which) := Concretized(c, l);
      SizesKept(c.table, c.size[l := n], c.concretize[l := which], c.maxSize, Twice(c.concretize, twice, l))
  {
    hide SizeKept, Concretized;
    var (n, which) := Concretized(c, l);
    var size, conc, later := c.size[l := n], c.concretize[l := which], Twice(c.concretize, twice, l);
    ReducedIsKept(c, twice, l);
    forall k | 0 <= k < |size| && k != l
      ensures SizeKept(c.table, size, conc, c.maxSize, later, k)
    {
      OthersAreKept(c.table, c.size, c.concretize, c.maxSize, twice, l, n, which, k);
    }
  }

  lemma {:induction false} ReducedRange(c: Config, l: nat)
    requires Scanned(c) && 0 < l < |c.size| && c.size[l] < WRAP32
    ensures Concretized(c, l).0 < WRAP32
  {
  }

  // ---- room ----

  /** Not both operands of a leaf comparison are over the limit, so it is never folded. */
  predicate Formed(table: seq<L.LabelInfo>, maxSize: nat, l: nat)
    requires L.Ordered(table) && l < |table|
  {
    IsLeaf(table, l) && table[l].op.ICmp? && Full(table, l) < WRAP32 ==>
      Over(Full(table, table[l].l1), Full(table, table[l].l2), maxSize) != (true, true)
  }

  lemma {:induction false} UnfoldedIsFormed(c: Config, twice: set<nat>, l: nat)
    requires Scanned(c) && SizesKept(c.table, c.size, c.concretize, c.maxSize, twice)
    requires 0 < l < |c.size| && c.table[l].op.ICmp? && !Folds(c, l)
    ensures Formed(c.table, c.maxSize, l)
  {
    if IsLeaf(c.table, l) && Full(c.table, l) < WRAP32 { LeafIs(c, twice, l); }
    hide Full, Pure;
  }

  /** The cached size of a formed leaf comparison is enough for its tree, unless the size was reduced twice. */
  lemma {:induction false} LeafRoom(c: Config, twice: set<nat>, l: nat)
    requires SizesKept(c.table, c.size, c.concretize, c.maxSize, twice) && l < |c.size| && l !in twice
    requires IsLeaf(c.table, l) && Full(c.table, l) < WRAP32 && Formed(c.table, c.maxSize, l)
    ensures Cost(c.table, c.concretize, l) <= c.size[l] <= Full(c.table, l)
  {
    LeafIs(c, twice, l);
    PureCost(c.table, c.concretize, |c.size|, c.table[l].l1);
    PureCost(c.table, c.concretize, |c.size|, c.table[l].l2);
    FullOf(c.table, l);
    hide Full, Pure, SizesKept;
  }

  /** And for such a comparison there is no second reduction if the operand that stays symbolic leaves two nodes below
      the limit. */
  lemma {:induction false} NeverTwice(c: Config, twice: set<nat>, l: nat)
    requires SizesKept(c.table, c.size, c.concretize, c.maxSize, twice) && l < |c.size|
    requires IsLeaf(c.table, l) && Full(c.table, l) < WRAP32
    requires
      var x, y := Full(c.table, c.table[l].l1), Full(c.table, c.table[l].l2);
      LeafSize(x, y, Over(x, y, c.maxSize)) <= c.maxSize
    ensures l !in twice
  {
    LeafIs(c, twice, l);
    hide Full, Pure;
  }

  lemma {:induction false} WrappedDifference(s: nat, x: nat)
    requires s < WRAP32 && 0 < x < WRAP32
    ensures (s - (x - 1)) % WRAP32 == (if x - 1 <= s then s else s + WRAP32) - (x - 1)
  {
    if x - 1 <= s {
      ModSmall(s - (x - 1), WRAP32);
    } else {
      ModSmall(s - (x - 1) + WRAP32, WRAP32);
    }
  }

  /** One operand of a comparison, the second one or the first. */
  function Side(info: L.LabelInfo, second: bool): nat {
    if second then info.l2 else info.l1
  }

  /** Just this operand is taken as a constant. */
  predicate OneFixed(conc: map<nat, (bool, bool)>, second: bool, l: nat) {
    l in conc && conc[l] == (!second, second)
  }

  lemma {:induction false} ReducesOne(c: Config, second: bool, l: nat)
    requires Scanned(c) && 0 < l < |c.size| && OneFixed(c.concretize, second, l)
    requires c.maxSize < c.size[l] && Side(c.table[l], true) < |c.size| && Side(c.table[l], false) < |c.size|
    requires c.size[Side(c.table[l], !second)] <= c.maxSize < c.size[Side(c.table[l], second)]
    ensures Concretized(c, l) == ((c.size[l] - (c.size[Side(c.table[l], second)] - 1)) % WRAP32, (!second, second))
  {
  }

  /** Exactly when a second reduction leaves enough room for a comparison one of whose operands is a constant already. */
  lemma {:induction false} SecondReduction(c: Config, second: bool, l: nat)
    requires Scanned(c) && 0 < l < |c.size| && c.table[l].op.ICmp? && OneFixed(c.concretize, second, l)
    requires c.maxSize < c.size[l] < WRAP32 && Side(c.table[l], true) < |c.size| && Side(c.table[l], false) < |c.size|
    requires c.size[Side(c.table[l], !second)] <= c.maxSize < c.size[Side(c.table[l], second)] < WRAP32
    ensures
      var (n, which) := Concretized(c, l);
      var conc := c.concretize[l := which];
      var (x, rest) := (c.size[Side(c.table[l], second)], Cost(c.table, conc, Side(c.table[l], !second)));
      && which == (!second, second) && Cost(c.table, conc, l) == 2 + rest
      && (Cost(c.table, conc, l) <= n
          <==> x + 1 + rest <= (if x - 1 <= c.size[l] then c.size[l] else c.size[l] + WRAP32))
  {
    hide Cost, Concretized;
    ReducesOne(c, second, l);
    CostFixed(c.table, c.concretize[l := (!second, second)], second, l);
    WrappedDifference(c.size[l], c.size[Side(c.table[l], second)]);
  }

  lemma {:induction false} CostFixed(table: seq<L.LabelInfo>, conc: map<nat, (bool, bool)>, second: bool, l: nat)
    requires L.Ordered(table) && 0 < l < |table| && table[l].op.ICmp? && OneFixed(conc, second, l)
    ensures Side(table[l], !second) < |table| && Cost(table, conc, l) == 2 + Cost(table, conc, Side(table[l], !second))
  {
  }

  /** For a leaf comparison this means: after the second reduction there is room if and only if the size has wrapped
      around, as the constant operand has at least four nodes more than the other one. */
  lemma {:induction false} SecondTimeBreaks(c: Config, twice: set<nat>, second: bool, l: nat)
    requires Scanned(c) && SizesKept(c.table, c.size, c.concretize, c.maxSize, twice)
    requires 0 < l < |c.size| && c.table[l].op.ICmp? && IsLeaf(c.table, l) && Full(c.table, l) < WRAP32
    requires OneFixed(c.concretize, second, l) && l !in twice && c.size[l] > c.maxSize
    ensures Side(c.table[l], true) < |c.size| && Side(c.table[l], false) < |c.size|
    ensures
      var (n, which) := Concretized(c, l);
      Cost(c.table, c.concretize[l := which], l) <= n
      <==> c.size[Side(c.table[l], second)] > c.size[Side(c.table[l], !second)] + 3
  {
    hide Full, Pure, Cost, SizesKept, Concretized;
    var (_, which) := Concretized(c, l);
    var conc, y := c.concretize[l := which], Side(c.table[l], !second);
    LeafIs(c, twice, l);
    SecondReduction(c, second, l);
    KeptCompares(c, twice, l, which);
    PureCost(c.table, conc, |c.size|, y);
  }

  lemma {:induction false} KeptCompares(c: Config, twice: set<nat>, l: nat, which: (bool, bool))
    requires SizesKept(c.table, c.size, c.concretize, c.maxSize, twice) && l < |c.size| && c.table[l].op.ICmp?
    ensures OnlyCompares(c.table, c.concretize[l := which], |c.size|)
  {
  }

  // ---- a comparison that loses its room ----

  /** An input byte, its double, and the comparison of the double with the byte, with a limit of two nodes. */
  function Example(): Config {
    Config([L.LabelInfo(0, 0, 0, 0, L.Input, 8),
            L.LabelInfo(0, 0, 0, 0, L.Input, 8),
            L.LabelInfo(1, 1, 0, 0, L.Add, 8),
            L.LabelInfo(2, 1, 0, 0, L.ICmp(L.Bvult), 8)],
           [0, 0, 0, 1], [1, 1, 3, 5], map[], 2)
  }

  function Reduced(c: Config, l: nat): Config
    requires Scanned(c) && 0 < l < |c.nest|
  {
    c.(size := c.size[l := Concretized(c, l).0], concretize := c.concretize[l := Concretized(c, l).1])
  }

  /** After the first reduction the comparison takes 3 of 3 nodes; after the second one, 3 of 1. */
  lemma {:induction false} SecondTimeExample()
    ensures
      var c := Example();
      && Scanned(c) && |c.nest| == 4
      && var once := Reduced(c, 3);
      && Scanned(once) && Cost(once.table, once.concretize, 3) == 3 == once.size[3]
      && var again := Reduced(once, 3);
      Cost(again.table, again.concretize, 3) == 3 && again.size[3] == 1
  {
    var c := Example();
    assert Scanned(c);
    assert Concretized(c, 3) == (3, (true, false));
    var once := Reduced(c, 3);
    assert Concretized(once, 3) == (1, (true, false));
    ExampleCost();
  }

  lemma {:induction false} ExampleCost()
    ensures L.Ordered(Example().table) && Cost(Example().table, map[3 := (true, false)], 3) == 3
  {
    var t, conc := Example().table, map[3 := (true, false)];
    assert Cost(t, conc, 1) == 1;
  }
}
