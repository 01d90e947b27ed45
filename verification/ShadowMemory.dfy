/** runtime/dfsan/dfsan.cpp, __taint_union_store and __taint_union_load: splitting a label into one label per byte of
    shadow memory and putting it together again. */
module ShadowMemory {
  import opened Base
  import opened Labels
  import opened LabelTable

  /** What a loop over the slots finds: it runs to the end, breaks, or meets an uninitialised slot. */
  datatype Verdict = All | Broken | Uninit

  /** A concrete byte as the 64-bit operand: `char` is signed. */
  function SignedByte(c: nat): nat {
    if c % 256 >= 128 then 0xFFFF_FFFF_FFFF_FF00 + c % 256 else c % 256
  }

  /** The operand stands for the same signed number as the byte. */
  lemma {:induction false} SignedByteIs(c: nat)
    ensures SignedByte(c) < WRAP64 && Signed(SignedByte(c), 64) == Signed(c % 256, 8)
  {
    hide Pow2;
    Pow2Of8();
    Pow2Of64();
    Half(8);
    Half(64);
  }

  lemma {:induction false} Half(n: nat)
    requires n > 0
    ensures Pow2(n) == 2 * Pow2(n - 1)
  {
  }

  // ---- the loops of __taint_union_load as functions of the slots ----

  function AllSame(ls: seq<nat>, first: nat, i: nat): Verdict
    decreases |ls| - i
  {
    if i >= |ls| then All
    else if ls[i] == INITIALIZING then Uninit
    else if ls[i] != first then Broken
    else AllSame(ls, first, i + 1)
  }

  /** Raw input bytes at consecutive offsets, going by the op1 field alone. */
  function Shape(table: seq<LabelInfo>, ls: seq<nat>, offset: nat, i: nat): Verdict
    requires SlotsOk(table, ls)
    decreases |ls| - i
  {
    if i >= |ls| then All
    else if ls[i] == INITIALIZING then Uninit
    else if table[ls[i]].op1 != offset + i then Broken
    else Shape(table, ls, offset, i + 1)
  }

  predicate IsPart(table: seq<LabelInfo>, l: nat, parent: nat, offset: nat)
    requires l < |table|
  {
    table[l].op == Extract && offset == table[l].op2 && parent == table[l].l1
  }

  /** How many bits of `parent` the slots from `i` on continue; None for an uninitialised slot. */
  function Parts(table: seq<LabelInfo>, ls: seq<nat>, parent: nat, i: nat, offset: nat): Option<nat>
    requires SlotsOk(table, ls)
    decreases |ls| - i
  {
    if i >= |ls| then Some(offset)
    else if ls[i] == INITIALIZING then None
    else if !IsPart(table, ls[i], parent, offset) then Some(offset)
    else Parts(table, ls, parent, i + 1, offset + table[ls[i]].size)
  }

  function ConcatCall(l1: nat, l2: nat, bytes: nat, op2: nat): LabelInfo {
    LabelInfo(l1, l2, 0, op2, Concat, 8 * bytes % WRAP16)
  }

  /** The slow path from slot `i` on, with `l` for the slots before it.  None: the process ended, or the loop never
      does because a label of less than 8 bits makes no progress. */
  function Slow(table: seq<LabelInfo>, limit: nat, ls: seq<nat>, mem: seq<nat>, i: nat, l: nat): Option<Made>
    requires |mem| == |ls|
    decreases |ls| - i
  {
    if i >= |ls| then Some(Made(l, table))
    else if ls[i] == INITIALIZING then Some(Made(INITIALIZING, table))
    else if ls[i] == 0 then
      match UnionOf(table, limit, ConcatCall(l, 0, i + 1, SignedByte(mem[i])))
      case None => None
      case Some(m) => Slow(m.table, limit, ls, mem, i + 1, m.id)
    else if ls[i] >= |table| then None
    else
      var size := table[ls[i]].size;
      if size > 8 * (|ls| - i) then Partial(table, limit, l, ls[i], |ls| - i, |ls|)
      else if size < 8 then None
      else
        match UnionOf(table, limit, ConcatCall(l, ls[i], i + size / 8, 0))
        case None => None
        case Some(m) => Slow(m.table, limit, ls, mem, i + size / 8, m.id)
  }

  /** The last label is too wide: only its low bytes are loaded. */
  function Partial(table: seq<LabelInfo>, limit: nat, l: nat, next: nat, rest: nat, n: nat): Option<Made> {
    match UnionOf(table, limit, LabelInfo(next, 0, 0, 0, Trunc, 8 * rest % WRAP16))
    case None => None
    case Some(m) => UnionOf(m.table, limit, ConcatCall(l, m.id, n, 0))
  }

  predicate IsLabel(table: seq<LabelInfo>, l: nat) {
    l < |table| || l == INITIALIZING
  }

  predicate SlotsOk(table: seq<LabelInfo>, ls: seq<nat>) {
    |table| <= INITIALIZING && forall i :: 0 <= i < |ls| ==> IsLabel(table, ls[i])
  }

  function LoadCall(first: nat, n: nat): LabelInfo {
    LabelInfo(first, n, 0, 0, Load, 8 * n % WRAP16)
  }

  /** From the extract path on. */
  function LoadParts(table: seq<LabelInfo>, limit: nat, ls: seq<nat>, mem: seq<nat>): Option<Made>
    requires |ls| > 0 && |mem| == |ls| && SlotsOk(table, ls) && ls[0] < |table|
  {
    var slow := Slow(table, limit, ls, mem, table[ls[0]].size / 8, ls[0]);
    if table[ls[0]].op != Extract then slow
    else
      var parent := table[ls[0]].l1;
      match Parts(table, ls, parent, 0, 0)
      case None => Some(Made(INITIALIZING, table))
      case Some(bits) =>
        if parent < |table| && table[parent].size == bits && bits == 8 * |ls| then Some(Made(parent, table)) else slow
  }

  /** From the shape test on. */
  function LoadShape(table: seq<LabelInfo>, limit: nat, ls: seq<nat>, mem: seq<nat>): Option<Made>
    requires |ls| > 0 && |mem| == |ls| && SlotsOk(table, ls) && ls[0] < |table|
  {
    var info := table[ls[0]];
    if info.op != Input then LoadParts(table, limit, ls, mem)
    else
      match Shape(table, ls, info.op1, 1)
      case Uninit => Some(Made(INITIALIZING, table))
      case All => if |ls| == 1 then Some(Made(ls[0], table)) else UnionOf(table, limit, LoadCall(ls[0], |ls|))
      case Broken => LoadParts(table, limit, ls, mem)
  }

  /** __taint_union_load of the slots `ls` over the bytes `mem`. */
  function LoadOf(table: seq<LabelInfo>, limit: nat, ls: seq<nat>, mem: seq<nat>): Option<Made>
    requires |ls| > 0 && |mem| == |ls| && SlotsOk(table, ls)
  {
    if ls[0] == INITIALIZING then Some(Made(INITIALIZING, table))
    else if ls[0] >= CONST_OFFSET && table[ls[0]].size == 0 then None
    else if ls[0] == 0 || table[ls[0]].op == Alloca then
      match AllSame(ls, ls[0], 1)
      case Uninit => Some(Made(INITIALIZING, table))
      case All => Some(Made(ls[0], table))
      case Broken => LoadShape(table, limit, ls, mem)
    else LoadShape(table, limit, ls, mem)
  }

  // ---- __taint_union_store ----

  datatype Stored = Stored(slots: seq<nat>, table: seq<LabelInfo>)

  function PartCall(l: nat, i: nat): LabelInfo {
    LabelInfo(l, 0, 0, 8 * i, Extract, 8)
  }

  /** The first `n` bytes of a label, one new label each. */
  function SplitOf(table: seq<LabelInfo>, limit: nat, l: nat, n: nat): (r: Option<Stored>)
    ensures r.Some? ==> |r.value.slots| == n
  {
    if n == 0 then Some(Stored([], table))
    else
      match SplitOf(table, limit, l, n - 1)
      case None => None
      case Some(s) =>
        match UnionOf(s.table, limit, PartCall(l, n - 1))
        case None => None
        case Some(m) => Some(Stored(s.slots + [m.id], m.table))
  }

  /** __taint_union_store of label `l` to `n` slots. */
  function StoreOf(table: seq<LabelInfo>, limit: nat, l: nat, n: nat): (r: Option<Stored>)
    requires IsLabel(table, l)
    ensures r.Some? ==> |r.value.slots| == n
  {
    if l == INITIALIZING || l == 0 || table[l].op == Alloca then Some(Stored(seq(n, _ => l), table))
    else if n == 1 && table[l].size == 8 then Some(Stored([l], table))
    else if table[l].op == Load then Some(Stored(seq(n, i requires 0 <= i => table[l].l1 + i), table))
    else SplitOf(table, limit, l, n)
  }

  // ---- storing and loading again ----

  /** A Load label as __taint_union_load makes it, over input labels that were allocated in a row. */
  ghost predicate LoadsInput(table: seq<LabelInfo>, l: nat)
    requires l < |table|
  {
    var first, n := table[l].l1, table[l].l2;
    && table[l] == LoadCall(first, n) && 0 < 8 * n < WRAP16
    && forall i :: 0 <= i < n ==> InputAt(table, first, i)
  }

  ghost predicate InputAt(table: seq<LabelInfo>, first: nat, i: nat) {
    0 < first && first + i < |table| && table[first + i].op == Input && table[first + i].op1 == table[first].op1 + i
    && table[first + i].size == 8
  }

  /** The low 8 bits of an 8-bit label, as a label of its own. */
  predicate WholeByte(table: seq<LabelInfo>, l: nat, n: nat)
    requires l < |table|
  {
    && n == 1 && table[l].op == Extract && table[l].op2 == 0
    && table[l].l1 < |table| && table[table[l].l1].size == 8
  }

  lemma {:induction false} SameAll(l: nat, n: nat, i: nat)
    requires 0 < i <= n && l != INITIALIZING
    ensures AllSame(seq(n, _ => l), l, i) == All
    decreases n - i
  {
    if i < n { SameAll(l, n, i + 1); }
  }

  lemma {:induction false} ShapeAll(table: seq<LabelInfo>, first: nat, ls: seq<nat>, i: nat)
    requires SlotsOk(table, ls) && 0 < i <= |ls| && first < |table|
    requires forall k :: 0 <= k < |ls| ==> ls[k] == first + k && InputAt(table, first, k)
    ensures Shape(table, ls, table[first].op1, i) == All
    decreases |ls| - i
  {
    if i < |ls| {
      assert InputAt(table, first, i);
      ShapeAll(table, first, ls, i + 1);
    }
  }

  /** The slots written by the default path. */
  ghost predicate AreParts(table: seq<LabelInfo>, l: nat, slots: seq<nat>) {
    forall i :: 0 <= i < |slots| ==> slots[i] < |table| && table[slots[i]] == PartCall(l, i)
  }

  lemma {:induction false} PartPrepare(table: seq<LabelInfo>, l: nat, i: nat)
    requires WellMade(table) && 0 < l < |table| <= INITIALIZING
    ensures Prepare(table, PartCall(l, i)) == Entry(PartCall(l, i))
  {
  }

  lemma {:induction false} SplitParts(table: seq<LabelInfo>, limit: nat, l: nat, n: nat)
    requires WellMade(table) && 0 < l < |table| <= limit <= INITIALIZING && SplitOf(table, limit, l, n).Some?
    ensures
      var s := SplitOf(table, limit, l, n).value;
      WellMade(s.table) && table <= s.table && |s.table| <= limit && AreParts(s.table, l, s.slots)
  {
    hide Prepare, WellMade, UnionOf;
    if n > 0 {
      SplitParts(table, limit, l, n - 1);
      PartMade(SplitOf(table, limit, l, n - 1).value.table, limit, l, n - 1);
    }
  }

  lemma {:induction false} PartMade(table: seq<LabelInfo>, limit: nat, l: nat, i: nat)
    requires WellMade(table) && 0 < l < |table| <= limit <= INITIALIZING && UnionOf(table, limit, PartCall(l, i)).Some?
    ensures
      var m := UnionOf(table, limit, PartCall(l, i)).value;
      && WellMade(m.table) && table <= m.table && |m.table| <= limit
      && m.id < |m.table| && m.table[m.id] == PartCall(l, i)
  {
    hide Prepare, WellMade;
    PartPrepare(table, l, i);
    StepKeeps(table, limit, Union(PartCall(l, i)));
  }

  lemma {:induction false} PartsAll(table: seq<LabelInfo>, l: nat, ls: seq<nat>, i: nat)
    requires SlotsOk(table, ls) && AreParts(table, l, ls) && i <= |ls|
    ensures Parts(table, ls, l, i, 8 * i) == Some(8 * |ls|)
    decreases |ls| - i
  {
    if i < |ls| {
      assert table[ls[i]] == PartCall(l, i);
      PartsAll(table, l, ls, i + 1);
    }
  }

  /** The labels this is promised for: any of `n` bytes, a Load lying in input labels allocated in a row. */
  ghost predicate Storable(table: seq<LabelInfo>, l: nat, n: nat) {
    && IsLabel(table, l)
    && (0 < l < |table| && table[l].op != Alloca ==>
          table[l].size == 8 * n < WRAP16 && (table[l].op == Load ==> LoadsInput(table, l)))
    && (0 < l < |table| && table[l].op == Alloca ==> table[l].size > 0)
  }

  lemma {:induction false} StoreLoadByte(table: seq<LabelInfo>, limit: nat, l: nat, mem: seq<nat>)
    requires WellMade(table) && |table| <= INITIALIZING && 0 < l < |table| && table[l].size == 8 && |mem| == 1
    requires table[l].op != Alloca
    ensures LoadOf(table, limit, [l], mem) == Some(Made(if WholeByte(table, l, 1) then table[l].l1 else l, table))
  {
    var ls := [l];
    assert Shape(table, ls, table[l].op1, 1) == All;
    assert Slow(table, limit, ls, mem, 1, l) == Some(Made(l, table));
    var parent := table[l].l1;
    assert Parts(table, ls, parent, 1, 8) == Some(8);
    assert Parts(table, ls, parent, 0, 0) == Some(if table[l].op == Extract && table[l].op2 == 0 then 8 else 0);
    hide Slow, Shape, Parts, UnionOf;
  }

  /** Hash-consing finds the Load label again. */
  lemma {:induction false} LoadFound(table: seq<LabelInfo>, limit: nat, l: nat)
    requires WellMade(table) && |table| <= INITIALIZING && 0 < l < |table| && LoadsInput(table, l) && 1 < table[l].l2
    ensures UnionOf(table, limit, LoadCall(table[l].l1, table[l].l2)) == Some(Made(l, table))
  {
    var first, n := table[l].l1, table[l].l2;
    ScanUnique(table, LoadCall(first, n), l);
    assert InputAt(table, first, 0);
    LoadPrepare(table, first, n);
    hide Scan, WellMade, Prepare;
  }

  lemma {:induction false} InputSlots(table: seq<LabelInfo>, l: nat, ls: seq<nat>)
    requires |table| <= INITIALIZING && 0 < l < |table| && LoadsInput(table, l) && |ls| == table[l].l2
    requires forall k :: 0 <= k < |ls| ==> ls[k] == table[l].l1 + k
    ensures SlotsOk(table, ls) && InputAt(table, table[l].l1, 0)
    ensures Shape(table, ls, table[table[l].l1].op1, 1) == All
  {
    var first := table[l].l1;
    forall k | 0 <= k < |ls| ensures ls[k] == first + k && InputAt(table, first, k) && IsLabel(table, ls[k]) {
      assert InputAt(table, first, k);
    }
    assert InputAt(table, first, 0);
    ShapeAll(table, first, ls, 1);
  }

  lemma {:induction false} StoreLoadInput(table: seq<LabelInfo>, limit: nat, l: nat, ls: seq<nat>, mem: seq<nat>)
    requires WellMade(table) && |table| <= INITIALIZING && 0 < l < |table| && LoadsInput(table, l)
    requires 1 < table[l].l2 == |mem| == |ls| && forall k :: 0 <= k < |ls| ==> ls[k] == table[l].l1 + k
    ensures SlotsOk(table, ls) && LoadOf(table, limit, ls, mem) == Some(Made(l, table))
  {
    LoadFound(table, limit, l);
    InputSlots(table, l, ls);
    hide Shape, Scan, WellMade, Prepare, LoadParts, UnionOf, SlotsOk, LoadsInput, LoadCall;
  }

  lemma {:induction false} LoadPrepare(table: seq<LabelInfo>, first: nat, n: nat)
    requires first < |table| <= INITIALIZING && table[first].op == Input && 1 < n < INITIALIZING
    ensures Prepare(table, LoadCall(first, n)) == Entry(LoadCall(first, n))
  {
  }

  lemma {:induction false} StoreLoadParts(table: seq<LabelInfo>, limit: nat, l: nat, ls: seq<nat>, mem: seq<nat>)
    requires 0 < l < |table| <= INITIALIZING && |ls| == |mem| > 0 && AreParts(table, l, ls)
    requires table[l].size == 8 * |ls| && table[0].op == Input
    ensures SlotsOk(table, ls) && LoadOf(table, limit, ls, mem) == Some(Made(l, table))
  {
    PartsAll(table, l, ls, 0);
    assert Parts(table, ls, l, 0, 0) == Some(8 * |ls|);
    assert table[ls[0]] == PartCall(l, 0);
    hide Parts, Slow, UnionOf, Shape;
  }

  // ---- while there is room ----

  lemma {:induction false} SplitSucceeds(table: seq<LabelInfo>, limit: nat, l: nat, n: nat)
    requires WellMade(table) && l < |table| && |table| + n <= limit <= INITIALIZING
    ensures SplitOf(table, limit, l, n).Some?
    ensures var s := SplitOf(table, limit, l, n).value; WellMade(s.table) && table <= s.table && |s.table| <= |table| + n
  {
    hide UnionOf, WellMade;
    if n > 0 {
      SplitSucceeds(table, limit, l, n - 1);
      UnionSucceeds(SplitOf(table, limit, l, n - 1).value.table, limit, PartCall(l, n - 1));
    }
  }

  /** A label can be stored while there is room for one label a byte. */
  lemma {:induction false} StoreSucceeds(table: seq<LabelInfo>, limit: nat, l: nat, n: nat)
    requires WellMade(table) && IsLabel(table, l) && |table| + n <= limit <= INITIALIZING
    ensures StoreOf(table, limit, l, n).Some?
  {
    hide UnionOf, WellMade;
    if l < |table| { SplitSucceeds(table, limit, l, n); }
  }

  /** Labels of at least a byte. */
  predicate WholeBytes(table: seq<LabelInfo>, ls: seq<nat>) {
    forall i :: 0 <= i < |ls| && 0 < ls[i] < |table| ==> table[ls[i]].size >= 8
  }

  lemma {:induction false} SlowSucceeds(table: seq<LabelInfo>, limit: nat, ls: seq<nat>, mem: seq<nat>, i: nat, l: nat)
    requires |mem| == |ls| && WellMade(table) && SlotsOk(table, ls) && WholeBytes(table, ls) && IsLabel(table, l)
    requires i < |ls| ==> |table| + |ls| - i < limit
    requires limit <= INITIALIZING
    ensures Slow(table, limit, ls, mem, i, l).Some?
    decreases |ls| - i
  {
    hide UnionOf, WellMade, SignedByte;
    if i < |ls| && ls[i] != INITIALIZING {
      assert IsLabel(table, ls[i]);
      var size := table[ls[i]].size;
      if ls[i] == 0 {
        var a := ConcatCall(l, 0, i + 1, SignedByte(mem[i]));
        ConcatSucceeds(table, limit, ls, a);
        SlowSucceeds(UnionOf(table, limit, a).value.table, limit, ls, mem, i + 1, UnionOf(table, limit, a).value.id);
      } else if size > 8 * (|ls| - i) {
        PartialSucceeds(table, limit, l, ls[i], |ls| - i, |ls|);
      } else {
        var a := ConcatCall(l, ls[i], i + size / 8, 0);
        ConcatSucceeds(table, limit, ls, a);
        SlowSucceeds(UnionOf(table, limit, a).value.table, limit, ls, mem, i + size / 8, UnionOf(table, limit, a).value.id);
      }
    }
  }

  lemma {:induction false} ConcatSucceeds(table: seq<LabelInfo>, limit: nat, ls: seq<nat>, a: LabelInfo)
    requires WellMade(table) && SlotsOk(table, ls) && WholeBytes(table, ls) && |table| < limit <= INITIALIZING
    requires a.op == Concat && IsLabel(table, a.l1) && IsLabel(table, a.l2)
    ensures UnionOf(table, limit, a).Some?
    ensures
      var m := UnionOf(table, limit, a).value;
      && WellMade(m.table) && SlotsOk(m.table, ls) && WholeBytes(m.table, ls) && IsLabel(m.table, m.id)
      && |m.table| <= |table| + 1
  {
    hide UnionOf, WellMade;
    UnionSucceeds(table, limit, a);
    var m := UnionOf(table, limit, a).value;
    forall i | 0 <= i < |ls| ensures IsLabel(m.table, ls[i]) && (0 < ls[i] < |m.table| ==> m.table[ls[i]].size >= 8) {
      assert IsLabel(table, ls[i]);
    }
  }

  lemma {:induction false} PartialSucceeds(table: seq<LabelInfo>, limit: nat, l: nat, next: nat, rest: nat, n: nat)
    requires WellMade(table) && IsLabel(table, l) && IsLabel(table, next) && |table| + 1 < limit <= INITIALIZING
    ensures Partial(table, limit, l, next, rest, n).Some?
  {
    hide UnionOf, WellMade;
    var a := LabelInfo(next, 0, 0, 0, Trunc, 8 * rest % WRAP16);
    WellMadeHolds(table);
    UnionSucceeds(table, limit, a);
    var m := UnionOf(table, limit, a).value;
    UnionSucceeds(m.table, limit, ConcatCall(l, m.id, n, 0));
  }

  lemma {:induction false} WellMadeHolds(table: seq<LabelInfo>)
    requires WellMade(table)
    ensures |table| > 0
  {
  }

  /** Bytes can be loaded while there is room, if labels have at least a byte and there are more labels than bytes. */
  lemma {:induction false} LoadSucceeds(table: seq<LabelInfo>, limit: nat, ls: seq<nat>, mem: seq<nat>)
    requires 0 < |ls| == |mem| && |ls| < |table| && |table| + |ls| < limit <= INITIALIZING
    requires WellMade(table) && SlotsOk(table, ls) && WholeBytes(table, ls)
    ensures LoadOf(table, limit, ls, mem).Some?
  {
    hide UnionOf, WellMade, Slow, Shape, Parts, AllSame;
    assert IsLabel(table, ls[0]);
    if ls[0] != INITIALIZING {
      SlowSucceeds(table, limit, ls, mem, table[ls[0]].size / 8, ls[0]);
      UnionSucceeds(table, limit, LoadCall(ls[0], |ls|));
    }
  }

  // ---- uninitialised slots ----

  /** Every slot holds a byte: a label of 8 bits, a constant, or nothing yet. */
  predicate ByteWide(table: seq<LabelInfo>, ls: seq<nat>) {
    forall i :: 0 <= i < |ls| && ls[i] < |table| ==> table[ls[i]].size == 8
  }

  lemma {:induction false} LoopsNotice(table: seq<LabelInfo>, ls: seq<nat>, offset: nat, i: nat, j: nat)
    requires SlotsOk(table, ls) && i <= j < |ls| && ls[j] == INITIALIZING
    ensures AllSame(ls, offset, i) != All || offset == INITIALIZING
    ensures Shape(table, ls, offset, i) != All
    decreases |ls| - i
  {
    if i < j { LoopsNotice(table, ls, offset, i + 1, j); }
  }

  lemma {:induction false} PartsNotice(table: seq<LabelInfo>, ls: seq<nat>, parent: nat, i: nat, j: nat)
    requires SlotsOk(table, ls) && ByteWide(table, ls) && i <= j < |ls| && ls[j] == INITIALIZING
    ensures var r := Parts(table, ls, parent, i, 8 * i); r.Some? ==> r.value < 8 * |ls|
    decreases |ls| - i
  {
    assert IsLabel(table, ls[i]);
    if i < j { PartsNotice(table, ls, parent, i + 1, j); }
  }

  lemma {:induction false} SlowNotices(table: seq<LabelInfo>, limit: nat, ls: seq<nat>, mem: seq<nat>, i: nat, l: nat, j: nat)
    requires |mem| == |ls| && WellMade(table) && SlotsOk(table, ls) && ByteWide(table, ls) && IsLabel(table, l)
    requires i <= j < |ls| && ls[j] == INITIALIZING && Slow(table, limit, ls, mem, i, l).Some? && limit <= INITIALIZING
    requires |table| + |ls| - i < limit
    ensures Slow(table, limit, ls, mem, i, l).value.id == INITIALIZING
    decreases |ls| - i
  {
    hide UnionOf, WellMade, SignedByte;
    if ls[i] != INITIALIZING {
      assert IsLabel(table, ls[i]);
      var a := if ls[i] == 0 then ConcatCall(l, 0, i + 1, SignedByte(mem[i])) else ConcatCall(l, ls[i], i + 1, 0);
      WellMadeHolds(table);
      BytesStay(table, limit, ls, a);
      SlowNotices(UnionOf(table, limit, a).value.table, limit, ls, mem, i + 1, UnionOf(table, limit, a).value.id, j);
    }
  }

  lemma {:induction false} BytesStay(table: seq<LabelInfo>, limit: nat, ls: seq<nat>, a: LabelInfo)
    requires WellMade(table) && SlotsOk(table, ls) && ByteWide(table, ls) && |table| < limit <= INITIALIZING
    requires a.op == Concat && IsLabel(table, a.l1) && IsLabel(table, a.l2)
    ensures UnionOf(table, limit, a).Some?
    ensures
      var m := UnionOf(table, limit, a).value;
      && WellMade(m.table) && SlotsOk(m.table, ls) && ByteWide(m.table, ls) && IsLabel(m.table, m.id)
      && |m.table| <= |table| + 1
  {
    hide UnionOf, WellMade;
    UnionSucceeds(table, limit, a);
    var m := UnionOf(table, limit, a).value;
    forall i | 0 <= i < |ls| ensures IsLabel(m.table, ls[i]) && (ls[i] < |m.table| ==> m.table[ls[i]].size == 8) {
      assert IsLabel(table, ls[i]);
    }
  }

  /** A load that covers an uninitialised slot is uninitialised. */
  lemma {:induction false} UninitialisedIsLoaded(table: seq<LabelInfo>, limit: nat, ls: seq<nat>, mem: seq<nat>, j: nat)
    requires j < |ls| == |mem| && |ls| < |table| && |table| + |ls| < limit <= INITIALIZING && ls[j] == INITIALIZING
    requires WellMade(table) && SlotsOk(table, ls) && ByteWide(table, ls)
    ensures LoadOf(table, limit, ls, mem).Some? && LoadOf(table, limit, ls, mem).value.id == INITIALIZING
  {
    hide UnionOf, WellMade, Slow, Shape, Parts, AllSame;
    LoadSucceeds(table, limit, ls, mem);
    assert IsLabel(table, ls[0]);
    if j > 0 && ls[0] != INITIALIZING {
      LoopsNotice(table, ls, ls[0], 1, j);
      LoopsNotice(table, ls, table[ls[0]].op1, 1, j);
      PartsNotice(table, ls, table[ls[0]].l1, 0, j);
      SlowSucceeds(table, limit, ls, mem, 1, ls[0]);
      SlowNotices(table, limit, ls, mem, 1, ls[0], j);
    }
  }

  /** Storing a label and loading it again gives the same label and adds nothing to the table.  The one exception is a
      label for the whole of an 8-bit label, for which the load gives the latter. */
  lemma {:induction false} StoreThenLoad(table: seq<LabelInfo>, limit: nat, l: nat, n: nat, mem: seq<nat>)
    requires WellMade(table) && |table| <= limit <= INITIALIZING && 0 < n == |mem| && Storable(table, l, n)
    requires StoreOf(table, limit, l, n).Some?
    ensures
      var s := StoreOf(table, limit, l, n).value;
      && SlotsOk(s.table, s.slots)
      && LoadOf(s.table, limit, s.slots, mem)
         == Some(Made(if 0 < l < |table| && WholeByte(table, l, n) then table[l].l1 else l, s.table))
  {
    var s := StoreOf(table, limit, l, n).value;
    if l == INITIALIZING {
    } else if l == 0 || table[l].op == Alloca {
      SameAll(l, n, 1);
    } else if n == 1 {
      StoreLoadByte(table, limit, l, mem);
    } else if table[l].op == Load {
      StoreLoadInput(table, limit, l, s.slots, mem);
    } else {
      SplitParts(table, limit, l, n);
      assert s.table[l] == table[l];
      StoreLoadParts(s.table, limit, l, s.slots, mem);
    }
    hide LoadShape, UnionOf, WellMade;
  }

  // ---- the methods ----

  lemma {:induction false} UnionInRange(table: seq<LabelInfo>, limit: nat, a: LabelInfo)
    requires WellMade(table) && InRange(table, a) && UnionOf(table, limit, a).Some?
    ensures IsLabel(UnionOf(table, limit, a).value.table, UnionOf(table, limit, a).value.id)
  {
    hide Scan, Prepare, WellMade;
    KnownInRange(table, a);
  }

  lemma {:induction false} KnownInRange(table: seq<LabelInfo>, a: LabelInfo)
    requires WellMade(table) && InRange(table, a)
    ensures Prepare(table, a).Known? ==> IsLabel(table, Prepare(table, a).id)
  {
    hide AllOnes, Distinct;
    assert forall l :: 0 <= l < |table| ==> table[l].l1 < |table|;
  }

  lemma {:induction false} SlotsGrow(table: seq<LabelInfo>, later: seq<LabelInfo>, ls: seq<nat>)
    requires SlotsOk(table, ls) && table <= later && |later| <= INITIALIZING
    ensures SlotsOk(later, ls)
  {
    forall i | 0 <= i < |ls| ensures IsLabel(later, ls[i]) { assert IsLabel(table, ls[i]); }
  }

  /** Application memory with its shadow: one label per byte. */
  class Shadow {
    const labels: Table
    var shadow: seq<nat>
    var memory: seq<nat>

    ghost predicate Valid()
      reads this`shadow, this`memory, labels
    {
      && labels.Valid() && |memory| == |shadow| && SlotsOk(labels.labels, shadow)
    }

    constructor (labels: Table, memory: seq<nat>)
      requires labels.Valid()
      ensures Valid() && this.labels == labels && this.memory == memory && shadow == seq(|memory|, _ => 0)
    {
      this.labels := labels;
      this.memory := memory;
      shadow := seq(|memory|, _ => 0);
    }

    /** Writes one label to `n` slots. */
    method Fill(l: nat, p: nat, n: nat)
      requires Valid() && p + n <= |shadow| && IsLabel(labels.labels, l)
      modifies this`shadow
      ensures Valid() && Written(old(shadow), shadow, p, seq(n, _ => l))
    {
      var i := 0;
      while i < n
        invariant 0 <= i <= n && |shadow| == |old(shadow)| && Valid()
        invariant forall k :: 0 <= k < |shadow| ==> shadow[k] == if p <= k < p + i then l else old(shadow)[k]
      {
        shadow := shadow[p + i := l];
        i := i + 1;
      }
    }

    /** The bytes of a Load label. */
    method Spread(first: nat, p: nat, n: nat)
      requires Valid() && p + n <= |shadow| && (n > 0 ==> first + n <= |labels.labels|)
      modifies this`shadow
      ensures Valid() && Written(old(shadow), shadow, p, seq(n, i requires 0 <= i => first + i))
    {
      var i := 0;
      while i < n
        invariant 0 <= i <= n && |shadow| == |old(shadow)| && Valid()
        invariant forall k :: 0 <= k < |shadow| ==> shadow[k] == if p <= k < p + i then first + (k - p) else old(shadow)[k]
      {
        shadow := shadow[p + i := first + i];
        i := i + 1;
      }
    }

    /** Writes a label for byte `i` to a slot. */
    method PutPart(l: nat, i: nat, slot: nat) returns (r: Option<nat>)
      requires Valid() && l < |labels.labels| && slot < |shadow|
      modifies this`shadow, labels`labels, labels`hashes, labels`buckets
      ensures Valid() && old(labels.labels) <= labels.labels
      ensures
        match UnionOf(old(labels.labels), labels.limit, PartCall(l, i))
        case None => r == None
        case Some(m) => r == Some(m.id) && labels.labels == m.table && shadow == old(shadow)[slot := m.id]
    {
      hide UnionOf, WellMade;
      r := Append(PartCall(l, i), shadow);
      if r.Some? { shadow := shadow[slot := r.value]; }
    }

    /** A new label for each byte. */
    method Split(l: nat, p: nat, n: nat) returns (ok: bool)
      requires Valid() && p + n <= |shadow| && l < |labels.labels|
      modifies this`shadow, labels`labels, labels`hashes, labels`buckets
      ensures Valid()
      ensures ok == SplitOf(old(labels.labels), labels.limit, l, n).Some?
      ensures ok ==>
        var s := SplitOf(old(labels.labels), labels.limit, l, n).value;
        Written(old(shadow), shadow, p, s.slots) && labels.labels == s.table
    {
      hide *;
      ghost var t, was, limit := labels.labels, shadow, labels.limit;
      ghost var slots: seq<nat> := [];
      var i := 0;
      SplitNone(t, limit, l, was, p);
      while i < n
        invariant 0 <= i == |slots| <= n && Valid() && t <= labels.labels && |shadow| == |was|
        invariant SplitOf(t, limit, l, i) == Some(Stored(slots, labels.labels))
        invariant Written(was, shadow, p, slots)
      {
        SplitStep(t, limit, l, i);
        WrittenNext(was, shadow, p, slots);
        var m := PutPart(l, i, p + i);
        if m == None {
          SplitFails(t, limit, l, i, n);
          return false;
        }
        slots := slots + [m.value];
        i := i + 1;
      }
      return true;
    }

    /** __taint_union_store. */
    method UnionStore(l: nat, p: nat, n: nat) returns (ok: bool)
      requires Valid() && p + n <= |shadow| && IsLabel(labels.labels, l)
      requires l < |labels.labels| && labels.labels[l].op == Load && n > 0 ==> labels.labels[l].l1 + n <= |labels.labels|
      modifies this`shadow, labels`labels, labels`hashes, labels`buckets
      ensures Valid() && ok == StoreOf(old(labels.labels), labels.limit, l, n).Some?
      ensures ok ==>
        var s := StoreOf(old(labels.labels), labels.limit, l, n).value;
        Written(old(shadow), shadow, p, s.slots) && labels.labels == s.table
    {
      var t := labels.labels;
      hide UnionOf, WellMade, Written;
      if l == INITIALIZING || l == 0 || t[l].op == Alloca {
        Fill(l, p, n);
        ok := true;
      } else if n == 1 && t[l].size == 8 {
        Fill(l, p, 1);
        assert seq(1, _ => l) == [l];
        ok := true;
      } else if t[l].op == Load {
        Spread(t[l].l1, p, n);
        ok := true;
      } else {
        ok := Split(l, p, n);
      }
    }

    /** The first loop of __taint_union_load. */
    method CheckSame(ls: seq<nat>) returns (v: Verdict)
      requires |ls| > 0
      ensures v == AllSame(ls, ls[0], 1)
    {
      var i := 1;
      while i < |ls|
        invariant 1 <= i <= |ls| && AllSame(ls, ls[0], 1) == AllSame(ls, ls[0], i)
      {
        if ls[i] == INITIALIZING { return Uninit; }
        if ls[i] != ls[0] { return Broken; }
        i := i + 1;
      }
      return All;
    }

    /** The shape loop. */
    method CheckShape(ls: seq<nat>, offset: nat) returns (v: Verdict)
      requires |ls| > 0 && SlotsOk(labels.labels, ls)
      ensures v == Shape(labels.labels, ls, offset, 1)
    {
      var table := labels.labels;
      var i := 1;
      while i != |ls|
        invariant 1 <= i <= |ls| && Shape(table, ls, offset, 1) == Shape(table, ls, offset, i)
      {
        assert IsLabel(table, ls[i]);
        if ls[i] == INITIALIZING { return Uninit; }
        if table[ls[i]].op1 != offset + i { return Broken; }
        i := i + 1;
      }
      return All;
    }

    /** The loop over extracted parts. */
    method CheckParts(ls: seq<nat>, parent: nat) returns (bits: Option<nat>)
      requires SlotsOk(labels.labels, ls)
      ensures bits == Parts(labels.labels, ls, parent, 0, 0)
    {
      var table := labels.labels;
      var i: nat, offset: nat := 0, 0;
      while i < |ls|
        invariant 0 <= i <= |ls| && Parts(table, ls, parent, 0, 0) == Parts(table, ls, parent, i, offset)
      {
        assert IsLabel(table, ls[i]);
        if ls[i] == INITIALIZING { return None; }
        if !IsPart(table, ls[i], parent, offset) { return Some(offset); }
        offset := offset + table[ls[i]].size;
        i := i + 1;
      }
      return Some(offset);
    }

    /** One union of the slow path; the slots stay labels. */
    method Append(a: LabelInfo, ghost ls: seq<nat>) returns (r: Option<nat>)
      requires labels.Valid() && InRange(labels.labels, a) && SlotsOk(labels.labels, ls)
      modifies labels`labels, labels`hashes, labels`buckets
      ensures labels.Valid() && SlotsOk(labels.labels, ls) && old(labels.labels) <= labels.labels
      ensures
        match UnionOf(old(labels.labels), labels.limit, a)
        case None => r == None
        case Some(m) => r == Some(m.id) && labels.labels == m.table && IsLabel(labels.labels, m.id)
    {
      ghost var t := labels.labels;
      r := labels.Union(a);
      if r.Some? {
        UnionInRange(t, labels.limit, a);
        StepKeeps(t, labels.limit, Union(a));
        SlotsGrow(t, labels.labels, ls);
      }
    }

    /** The slow path, from slot `start` on. */
    method SlowLoad(ls: seq<nat>, mem: seq<nat>, start: nat, first: nat) returns (r: Option<nat>)
      requires labels.Valid() && |mem| == |ls| && SlotsOk(labels.labels, ls) && IsLabel(labels.labels, first)
      modifies labels`labels, labels`hashes, labels`buckets
      ensures labels.Valid() && old(labels.labels) <= labels.labels
      ensures
        match Slow(old(labels.labels), labels.limit, ls, mem, start, first)
        case None => r == None
        case Some(m) => r == Some(m.id) && labels.labels == m.table
    {
      hide *;
      ghost var t, limit := labels.labels, labels.limit;
      var i, l := start, first;
      while i < |ls|
        invariant labels.Valid() && t <= labels.labels
        invariant SlotsOk(labels.labels, ls) && IsLabel(labels.labels, l)
        invariant Slow(t, limit, ls, mem, start, first) == Slow(labels.labels, limit, ls, mem, i, l)
        decreases |ls| - i
      {
        var next := ls[i];
        SlowStep(labels.labels, limit, ls, mem, i, l);
        if next == INITIALIZING { return Some(INITIALIZING); }
        var step, call := 1, ConcatCall(l, 0, i + 1, SignedByte(mem[i]));
        if next != 0 {
          var size := labels.labels[next].size;
          if size > 8 * (|ls| - i) {
            r := PartialLoad(ls, l, next, |ls| - i);
            return;
          }
          if size < 8 { return None; }
          step, call := size / 8, ConcatCall(l, next, i + size / 8, 0);
        }
        var m := Append(call, ls);
        if m == None { return None; }
        i, l := i + step, m.value;
      }
      SlowEnd(labels.labels, limit, ls, mem, i, l);
      return Some(l);
    }

    /** The low bytes of a label that is too wide. */
    method PartialLoad(ls: seq<nat>, l: nat, next: nat, rest: nat) returns (r: Option<nat>)
      requires labels.Valid() && SlotsOk(labels.labels, ls) && IsLabel(labels.labels, l) && next < |labels.labels|
      modifies labels`labels, labels`hashes, labels`buckets
      ensures labels.Valid() && old(labels.labels) <= labels.labels
      ensures
        match Partial(old(labels.labels), labels.limit, l, next, rest, |ls|)
        case None => r == None
        case Some(m) => r == Some(m.id) && labels.labels == m.table
    {
      hide UnionOf, WellMade;
      var low := Append(LabelInfo(next, 0, 0, 0, Trunc, 8 * rest % WRAP16), ls);
      if low == None { return None; }
      r := Append(ConcatCall(l, low.value, |ls|, 0), ls);
    }

    /** The extract path and the slow path. */
    method LoadRest(ls: seq<nat>, mem: seq<nat>) returns (r: Option<nat>)
      requires labels.Valid() && |ls| > 0 && |mem| == |ls| && SlotsOk(labels.labels, ls) && ls[0] < |labels.labels|
      modifies labels`labels, labels`hashes, labels`buckets
      ensures labels.Valid() && old(labels.labels) <= labels.labels
      ensures
        match LoadParts(old(labels.labels), labels.limit, ls, mem)
        case None => r == None
        case Some(m) => r == Some(m.id) && labels.labels == m.table
    {
      hide Slow, Parts, WellMade, UnionOf;
      var table := labels.labels;
      if table[ls[0]].op == Extract {
        var parent := table[ls[0]].l1;
        var bits := CheckParts(ls, parent);
        if bits == None { return Some(INITIALIZING); }
        if parent < |table| && table[parent].size == bits.value && bits.value == 8 * |ls| { return Some(parent); }
      }
      r := SlowLoad(ls, mem, table[ls[0]].size / 8, ls[0]);
    }

    /** __taint_union_load. */
    method UnionLoad(p: nat, n: nat) returns (r: Option<nat>)
      requires Valid() && 0 < n && p + n <= |shadow|
      modifies labels`labels, labels`hashes, labels`buckets
      ensures Valid()
      ensures
        match LoadOf(old(labels.labels), labels.limit, shadow[p..p + n], memory[p..p + n])
        case None => r == None
        case Some(m) => r == Some(m.id) && labels.labels == m.table
    {
      hide UnionOf, WellMade, Shape, AllSame, LoadParts;
      var ls, mem, table := shadow[p..p + n], memory[p..p + n], labels.labels;
      assert SlotsOk(table, ls);
      var first := ls[0];
      assert IsLabel(table, first);
      if first == INITIALIZING { return Some(INITIALIZING); }
      if first >= CONST_OFFSET && table[first].size == 0 { return None; }
      if first == 0 || table[first].op == Alloca {
        var same := CheckSame(ls);
        if same == Uninit { return Some(INITIALIZING); }
        if same == All { return Some(first); }
      }
      if table[first].op == Input {
        var shape := CheckShape(ls, table[first].op1);
        if shape == Uninit { return Some(INITIALIZING); }
        if shape == All {
          if n == 1 { return Some(first); }
          r := Append(LoadCall(first, n), shadow);
          return;
        }
      }
      r := LoadRest(ls, mem);
    }

    /** A value written to memory and read back: the label comes back, the load adds no entry and the other slots keep
        their labels. */
    method StoreAndLoad(l: nat, p: nat, n: nat) returns (r: Option<nat>)
      requires Valid() && 0 < n && p + n <= |shadow| && Storable(labels.labels, l, n)
      modifies this`shadow, labels`labels, labels`hashes, labels`buckets
      ensures Valid()
      ensures
        var t := old(labels.labels);
        match StoreOf(t, labels.limit, l, n)
        case None => r == None
        case Some(s) =>
          && r == Some(if 0 < l < |t| && WholeByte(t, l, n) then t[l].l1 else l)
          && labels.labels == s.table
          && shadow == old(shadow)[..p] + s.slots + old(shadow)[p + |s.slots|..] && |s.slots| == n
    {
      hide *;
      ghost var t, was := labels.labels, shadow;
      ValidIs();
      StorableLoad(t, l, n);
      var ok := UnionStore(l, p, n);
      if !ok { return None; }
      ghost var s := StoreOf(t, labels.limit, l, n).value;
      ValidIs();
      StoredLength(t, labels.limit, l, n);
      WrittenAll(was, shadow, p, s.slots);
      StoreThenLoad(t, labels.limit, l, n, memory[p..p + n]);
      r := UnionLoad(p, n);
    }

    lemma {:induction false} ValidIs()
      requires Valid()
      ensures labels.Valid() && WellMade(labels.labels) && |labels.labels| <= labels.limit <= INITIALIZING
      ensures |memory| == |shadow| && SlotsOk(labels.labels, shadow)
    {
    }
  }

  lemma {:induction false} StorableLoad(table: seq<LabelInfo>, l: nat, n: nat)
    requires WellMade(table) && Storable(table, l, n) && 0 < n
    ensures IsLabel(table, l) && (l < |table| && table[l].op == Load ==> table[l].l1 + n <= |table|)
  {
    if 0 < l < |table| && table[l].op == Load {
      assert InputAt(table, table[l].l1, n - 1);
    }
  }

  lemma {:induction false} StoredLength(table: seq<LabelInfo>, limit: nat, l: nat, n: nat)
    requires WellMade(table) && |table| <= limit <= INITIALIZING && Storable(table, l, n) && 0 < n
    requires StoreOf(table, limit, l, n).Some?
    ensures |StoreOf(table, limit, l, n).value.slots| == n
  {
    hide UnionOf, WellMade;
  }

  /** One round of the slow path. */
  lemma {:induction false} SlowStep(table: seq<LabelInfo>, limit: nat, ls: seq<nat>, mem: seq<nat>, i: nat, l: nat)
    requires |mem| == |ls| && i < |ls| && SlotsOk(table, ls) && IsLabel(table, l)
    ensures ls[i] == INITIALIZING ==> Slow(table, limit, ls, mem, i, l) == Some(Made(INITIALIZING, table))
    ensures ls[i] == 0 ==>
      var a := ConcatCall(l, 0, i + 1, SignedByte(mem[i]));
      && InRange(table, a)
      && Slow(table, limit, ls, mem, i, l) ==
           match UnionOf(table, limit, a)
           case None => None
           case Some(m) => Slow(m.table, limit, ls, mem, i + 1, m.id)
    ensures ls[i] != 0 && ls[i] != INITIALIZING ==> ls[i] < |table|
    ensures ls[i] != 0 && ls[i] != INITIALIZING ==>
      var size := table[ls[i]].size;
      if size > 8 * (|ls| - i) then
        Slow(table, limit, ls, mem, i, l) == Partial(table, limit, l, ls[i], |ls| - i, |ls|)
      else if size < 8 then Slow(table, limit, ls, mem, i, l) == None
      else
        var a := ConcatCall(l, ls[i], i + size / 8, 0);
        && InRange(table, a)
        && Slow(table, limit, ls, mem, i, l) ==
             match UnionOf(table, limit, a)
             case None => None
             case Some(m) => Slow(m.table, limit, ls, mem, i + size / 8, m.id)
  {
    assert IsLabel(table, ls[i]);
    hide UnionOf;
  }

  lemma {:induction false} SlowEnd(table: seq<LabelInfo>, limit: nat, ls: seq<nat>, mem: seq<nat>, i: nat, l: nat)
    requires |mem| == |ls| && i >= |ls|
    ensures Slow(table, limit, ls, mem, i, l) == Some(Made(l, table))
  {
  }

  lemma {:induction false} SplitNone(table: seq<LabelInfo>, limit: nat, l: nat, was: seq<nat>, p: nat)
    requires p <= |was|
    ensures SplitOf(table, limit, l, 0) == Some(Stored([], table)) && Written(was, was, p, [])
  {
  }

  lemma {:induction false} SplitStep(table: seq<LabelInfo>, limit: nat, l: nat, i: nat)
    requires SplitOf(table, limit, l, i).Some?
    ensures
      var s := SplitOf(table, limit, l, i).value;
      SplitOf(table, limit, l, i + 1) ==
        match UnionOf(s.table, limit, PartCall(l, i))
        case None => None
        case Some(m) => Some(Stored(s.slots + [m.id], m.table))
  {
  }

  /** The slots from `p` on hold `slots`; the others are as they were. */
  ghost predicate Written(was: seq<nat>, now: seq<nat>, p: nat, slots: seq<nat>) {
    && |now| == |was| && p + |slots| <= |now|
    && forall k :: 0 <= k < |now| ==> now[k] == if p <= k < p + |slots| then slots[k - p] else was[k]
  }

  lemma {:induction false} WrittenNext(was: seq<nat>, now: seq<nat>, p: nat, slots: seq<nat>)
    requires Written(was, now, p, slots) && p + |slots| < |now|
    ensures forall v :: Written(was, now[p + |slots| := v], p, slots + [v])
  {
  }

  lemma {:induction false} WrittenAll(was: seq<nat>, now: seq<nat>, p: nat, slots: seq<nat>)
    requires Written(was, now, p, slots)
    ensures now == was[..p] + slots + was[p + |slots|..] && now[p..p + |slots|] == slots
  {
  }

  lemma {:induction false} SplitFails(table: seq<LabelInfo>, limit: nat, l: nat, i: nat, n: nat)
    requires i < n && SplitOf(table, limit, l, i + 1).None?
    ensures SplitOf(table, limit, l, n).None?
    decreases n
  {
    hide UnionOf, PartCall;
    if i + 1 < n { SplitFails(table, limit, l, i, n - 1); }
  }
}
