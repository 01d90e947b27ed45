/** The slow path of __taint_union_load over slots that hold labels of several bytes, the last of which may be cut. */
module WideLoads {
  import opened Base
  import opened Labels
  import opened Z3Expr
  import opened LabelValues
  import opened LabelTable
  import opened LabelMeaning
  import opened ShadowMemory
  import S = ShadowMeaning

  /** A slot is concrete, or holds a label of whole bytes that is neither bounds nor an extension of bounds or of a
      compare. */
  predicate WideSlot(table: seq<LabelInfo>, l: nat)
    requires Ordered(table)
  {
    && l < |table|
    && (l != 0 ==>
          && table[l].size > 0 && table[l].size % 8 == 0 && LabelBits(table, l) == table[l].size && !IsBounds(table, l)
          && (table[l].op == ZExt || table[l].op == SExt ==>
                !IsBounds(table, table[l].l1) && !IsCompare(table[table[l].l1].op)))
  }

  predicate WideSlots(table: seq<LabelInfo>, ls: seq<nat>)
    requires Ordered(table)
  {
    forall i :: 0 <= i < |ls| ==> WideSlot(table, ls[i])
  }

  /** The bytes from `i` on as one number, the first one lowest: a concrete byte, or a label with all its bytes, or as many
      of them as are loaded. */
  function Rest(w: World, table: seq<LabelInfo>, ls: seq<nat>, mem: seq<nat>, i: nat): nat
    requires Ordered(table) && |ls| == |mem| && WideSlots(table, ls)
    decreases |ls| - i
  {
    if i >= |ls| then 0
    else
      assert WideSlot(table, ls[i]);
      if ls[i] == 0 then mem[i] % 256 + Times(Rest(w, table, ls, mem, i + 1), Pow2(8))
      else
        var size := table[ls[i]].size;
        if size > 8 * (|ls| - i) then Value(w, table, ls[i]) % Pow2(8 * (|ls| - i))
        else Value(w, table, ls[i]) + Times(Rest(w, table, ls, mem, i + size / 8), Pow2(size))
  }

  lemma {:induction false} WideGrows(table: seq<LabelInfo>, later: seq<LabelInfo>, ls: seq<nat>)
    requires Ordered(table) && Ordered(later) && table <= later && WideSlots(table, ls)
    ensures WideSlots(later, ls)
  {
    forall i | 0 <= i < |ls| ensures WideSlot(later, ls[i]) {
      assert WideSlot(table, ls[i]);
      BitsPrefix(table, later, ls[i]);
    }
  }

  lemma {:induction false} RestGrows(w: World, table: seq<LabelInfo>, later: seq<LabelInfo>, ls: seq<nat>, mem: seq<nat>,
                                     i: nat)
    requires Ordered(table) && Ordered(later) && table <= later && |ls| == |mem| && WideSlots(table, ls)
    requires WideSlots(later, ls)
    ensures Rest(w, later, ls, mem, i) == Rest(w, table, ls, mem, i)
    decreases |ls| - i
  {
    hide Value, LabelBits, Pow2, Times, WideSlots;
    if i < |ls| {
      SlotIs(table, ls, i);
      SlotIs(later, ls, i);
      ValuePrefix(w, table, later, ls[i]);
      if ls[i] == 0 { RestGrows(w, table, later, ls, mem, i + 1); }
      else if table[ls[i]].size <= 8 * (|ls| - i) { RestGrows(w, table, later, ls, mem, i + table[ls[i]].size / 8); }
    }
  }

  lemma {:induction false} SlotIs(table: seq<LabelInfo>, ls: seq<nat>, i: nat)
    requires Ordered(table) && WideSlots(table, ls) && i < |ls|
    ensures WideSlot(table, ls[i])
  {
  }

  /** The label `l` stands for the first `i` bytes. */
  ghost predicate Holds(table: seq<LabelInfo>, i: nat, l: nat)
    requires Ordered(table)
  {
    0 < l < |table| && table[l].size == 8 * i == LabelBits(table, l) && !IsBounds(table, l)
  }

  /** A Concat of `l` with `k` more bytes, from a label or a constant. */
  lemma {:induction false} JoinNode(w: World, table: seq<LabelInfo>, l: nat, next: nat, i: nat, k: nat, op2: nat)
    requires Proper(table) && Holds(table, i, l) && next < |table| && 0 < k && 8 * (i + k) < WRAP16
    requires next != 0 ==> LabelBits(table, next) == 8 * k && !IsBounds(table, next)
    requires next == 0 ==> k == 1
    ensures PlainCall(table, ConcatCall(l, next, i + k, op2))
    ensures
      var high := if next == 0 then op2 % Pow2(8) else Value(w, table, next);
      var a := ConcatCall(l, next, i + k, op2);
      && NodeBits(table, a) == 8 * (i + k) && Ordered(table + [a])
      && NodeValue(w, table, a) == Value(w, table, l) + Times(high, Pow2(8 * i))
  {
    hide Value, LabelBits, Pow2, Times, AllWiden;
    var a := ConcatCall(l, next, i + k, op2);
    var t := table + [a];
    ValuePrefix(w, table, t, l);
    ValuePrefix(w, table, t, next);
    S.ConcatIs(w, t, |table|);
    ModSmall(8 * (i + k), WRAP16);
  }

  /** The union asked for has the value of both parts and stands for the bytes of both. */
  lemma {:induction false} Joined(w: World, table: seq<LabelInfo>, limit: nat, l: nat, next: nat, i: nat, k: nat, op2: nat)
    requires Proper(table) && limit <= INITIALIZING && Holds(table, i, l) && next < |table| && 0 < k && 8 * (i + k) < WRAP16
    requires next != 0 ==> LabelBits(table, next) == 8 * k && !IsBounds(table, next)
    requires next == 0 ==> k == 1
    requires UnionOf(table, limit, ConcatCall(l, next, i + k, op2)).Some?
    ensures
      var m := UnionOf(table, limit, ConcatCall(l, next, i + k, op2)).value;
      var high := if next == 0 then op2 % Pow2(8) else Value(w, table, next);
      && Proper(m.table) && table <= m.table && Holds(m.table, i + k, m.id)
      && Value(w, m.table, m.id) == Value(w, table, l) + Times(high, Pow2(8 * i))
  {
    hide Value, LabelBits, Pow2, Times, UnionOf, PlainCall, NodeBits, NodeValue, Proper;
    var a := ConcatCall(l, next, i + k, op2);
    JoinNode(w, table, l, next, i, k, op2);
    ModSmall(8 * (i + k), WRAP16);
    S.ConcatMade(w, table, limit, a);
    S.ProperBound(UnionOf(table, limit, a).value.table);
  }

  /** The low bytes of a label that is too wide. */
  lemma {:induction false} Cut(w: World, table: seq<LabelInfo>, limit: nat, next: nat, rest: nat)
    requires Proper(table) && limit <= INITIALIZING && WideSlot(table, next) && next != 0
    requires 0 < rest && 8 * rest < WRAP16 && 8 * rest < table[next].size
    requires UnionOf(table, limit, LabelInfo(next, 0, 0, 0, Trunc, 8 * rest % WRAP16)).Some?
    ensures
      var m := UnionOf(table, limit, LabelInfo(next, 0, 0, 0, Trunc, 8 * rest % WRAP16)).value;
      && Proper(m.table) && table <= m.table && 0 < m.id < |m.table| && !IsBounds(m.table, m.id)
      && LabelBits(m.table, m.id) == 8 * rest && Value(w, m.table, m.id) == Value(w, table, next) % Pow2(8 * rest)
  {
    hide Value, LabelBits, Pow2, UnionOf, PlainCall, NodeBits, NodeValue, Proper;
    ModSmall(8 * rest, WRAP16);
    var a := LabelInfo(next, 0, 0, 0, Trunc, 8 * rest);
    CutNode(w, table, next, a);
    CutMade(table, limit, a);
    UnionMeans(w, table, limit, a);
    ProperIsSized(table, a);
    StepProper(table, limit, Union(a));
    S.ProperBound(table);
    ProperMade(table);
    StepKeeps(table, limit, Union(a));
  }

  lemma {:induction false} ProperMade(table: seq<LabelInfo>)
    requires Proper(table)
    ensures WellMade(table)
  {
  }

  lemma {:induction false} CutNode(w: World, table: seq<LabelInfo>, next: nat, a: LabelInfo)
    requires Proper(table) && WideSlot(table, next) && next != 0 && a == LabelInfo(next, 0, 0, 0, Trunc, a.size) && a.size > 0
    ensures PlainCall(table, a) && !MachineCall(table, a) && Ordered(table + [a])
    ensures NodeBits(table, a) == a.size && NodeValue(w, table, a) == Value(w, table, next) % Pow2(a.size)
  {
    hide Pow2, AllWiden;
    var t := table + [a];
    ValuePrefix(w, table, t, next);
    hide Value, LabelBits;
    TruncIs(w, t, |table|);
  }

  lemma {:induction false} TruncIs(w: World, t: seq<LabelInfo>, n: nat)
    requires Ordered(t) && 0 < n < |t| && t[n].op == Trunc
    ensures LabelBits(t, n) == t[n].size && Value(w, t, n) == Value(w, t, t[n].l1) % Pow2(t[n].size)
  {
    hide Pow2;
  }

  /** The truncation is a label: a new one, or what was extended. */
  lemma {:induction false} CutMade(table: seq<LabelInfo>, limit: nat, a: LabelInfo)
    requires Proper(table) && a.l1 != 0 && WideSlot(table, a.l1) && a == LabelInfo(a.l1, 0, 0, 0, Trunc, a.size)
    requires UnionOf(table, limit, a).Some?
    ensures var m := UnionOf(table, limit, a).value; 0 < m.id < |m.table| && !IsBounds(m.table, m.id) && table <= m.table
  {
    hide Pow2, LabelBits, Sized;
    assert Widens(table, a.l1);
  }

  /** A piece with `r` on top of it. */
  lemma {:induction false} Stack(b: nat, r: nat, k: nat, n: nat)
    ensures Times(b + Times(r, Pow2(k)), Pow2(n)) == Times(b, Pow2(n)) + Times(r, Pow2(n + k))
  {
    Pow2Add(n, k);
    hide Pow2;
    Distribute(b, r, Pow2(k), Pow2(n));
  }

  lemma {:induction false} Distribute(b: nat, r: nat, p: nat, q: nat)
    ensures (b + r * p) * q == b * q + r * (q * p)
  {
  }

  /** The definitions at slot `i`. */
  lemma {:induction false} SlowAt(table: seq<LabelInfo>, limit: nat, ls: seq<nat>, mem: seq<nat>, i: nat, l: nat)
    requires Ordered(table) && |table| <= INITIALIZING && |ls| == |mem| && WideSlots(table, ls)
    ensures i >= |ls| ==> Slow(table, limit, ls, mem, i, l) == Some(Made(l, table))
    ensures i < |ls| ==>
      && ls[i] < |table|
      && var (rest, size) := (|ls| - i, table[ls[i]].size);
         var k := if ls[i] == 0 then 1 else size / 8;
         && (ls[i] != 0 ==> size > 0 && size == 8 * k && LabelBits(table, ls[i]) == size && !IsBounds(table, ls[i]))
         && Slow(table, limit, ls, mem, i, l) ==
              if ls[i] != 0 && k > rest then Partial(table, limit, l, ls[i], rest, |ls|)
              else
                match UnionOf(table, limit, ConcatCall(l, ls[i], i + k, if ls[i] == 0 then SignedByte(mem[i]) else 0))
                case None => None
                case Some(m) => Slow(m.table, limit, ls, mem, i + k, m.id)
  {
    hide UnionOf, LabelBits, SignedByte, Partial;
    if i < |ls| { SlotIs(table, ls, i); }
  }

  lemma {:induction false} RestAt(w: World, table: seq<LabelInfo>, ls: seq<nat>, mem: seq<nat>, i: nat)
    requires Ordered(table) && |ls| == |mem| && WideSlots(table, ls)
    ensures i >= |ls| ==> Rest(w, table, ls, mem, i) == 0
    ensures i < |ls| ==>
      && ls[i] < |table|
      && var (rest, size) := (|ls| - i, table[ls[i]].size);
         Rest(w, table, ls, mem, i) ==
           if ls[i] == 0 then mem[i] % 256 + Times(Rest(w, table, ls, mem, i + 1), Pow2(8))
           else if size > 8 * rest then Value(w, table, ls[i]) % Pow2(8 * rest)
           else Value(w, table, ls[i]) + Times(Rest(w, table, ls, mem, i + size / 8), Pow2(size))
  {
    hide Value, LabelBits, Pow2, Times;
    if i < |ls| { SlotIs(table, ls, i); }
  }

  /** The last label is cut. */
  lemma {:induction false} PartialMeans(w: World, table: seq<LabelInfo>, limit: nat, l: nat, next: nat, i: nat, n: nat)
    requires Proper(table) && limit <= INITIALIZING && i < n && 8 * n < WRAP16 && Holds(table, i, l)
    requires WideSlot(table, next) && next != 0 && table[next].size > 8 * (n - i)
    requires Partial(table, limit, l, next, n - i, n).Some?
    ensures
      var m := Partial(table, limit, l, next, n - i, n).value;
      && Proper(m.table) && table <= m.table && Holds(m.table, n, m.id)
      && Value(w, m.table, m.id)
         == Value(w, table, l) + Times(Value(w, table, next) % Pow2(8 * (n - i)), Pow2(8 * i))
  {
    hide Value, LabelBits, Pow2, Times, UnionOf, Proper, WideSlot;
    Cut(w, table, limit, next, n - i);
    var m := UnionOf(table, limit, LabelInfo(next, 0, 0, 0, Trunc, 8 * (n - i) % WRAP16)).value;
    S.ProperBound(m.table);
    HoldsGrows(w, table, m.table, i, l);
    assert i + (n - i) == n;
    Joined(w, m.table, limit, l, m.id, i, n - i, 0);
  }

  lemma {:induction false} HoldsGrows(w: World, table: seq<LabelInfo>, later: seq<LabelInfo>, i: nat, l: nat)
    requires Ordered(table) && Ordered(later) && table <= later && Holds(table, i, l)
    ensures Holds(later, i, l) && Value(w, later, l) == Value(w, table, l)
  {
    ValuePrefix(w, table, later, l);
    BitsPrefix(table, later, l);
    hide Value, LabelBits;
  }

  /** Every round of the slow path adds the next piece on top: what is loaded has the value of the first label and of the
      pieces after it, the first one lowest. */
  lemma {:induction false} SlowMeansWide(w: World, table: seq<LabelInfo>, limit: nat, ls: seq<nat>, mem: seq<nat>, i: nat,
                                         l: nat)
    requires Proper(table) && limit <= INITIALIZING && |ls| == |mem| && 8 * |ls| < WRAP16 && i <= |ls|
    requires Ordered(table) && WideSlots(table, ls) && Holds(table, i, l) && Slow(table, limit, ls, mem, i, l).Some?
    ensures
      var m := Slow(table, limit, ls, mem, i, l).value;
      && Proper(m.table) && table <= m.table && Ordered(m.table) && Holds(m.table, |ls|, m.id)
      && Value(w, m.table, m.id) == Value(w, table, l) + Times(Rest(w, table, ls, mem, i), Pow2(8 * i))
    decreases |ls| - i
  {
    hide *;
    S.ProperBound(table);
    SlowAt(table, limit, ls, mem, i, l);
    RestAt(w, table, ls, mem, i);
    if i == |ls| {
      TimesZero(Pow2(8 * i));
    } else {
      SlotIs(table, ls, i);
      var k := if ls[i] == 0 then 1 else table[ls[i]].size / 8;
      if ls[i] != 0 && k > |ls| - i {
        PartialMeans(w, table, limit, l, ls[i], i, |ls|);
        S.ProperBound(Slow(table, limit, ls, mem, i, l).value.table);
      } else {
        var op2 := if ls[i] == 0 then SignedByte(mem[i]) else 0;
        var m := UnionOf(table, limit, ConcatCall(l, ls[i], i + k, op2)).value;
        Joined(w, table, limit, l, ls[i], i, k, op2);
        S.SignedByteLow(mem[i]);
        S.ProperBound(m.table);
        WideGrows(table, m.table, ls);
        SlowMeansWide(w, m.table, limit, ls, mem, i + k, m.id);
        RestGrows(w, table, m.table, ls, mem, i + k);
        var piece := if ls[i] == 0 then mem[i] % 256 else Value(w, table, ls[i]);
        Stack(piece, Rest(w, table, ls, mem, i + k), 8 * k, 8 * i);
        assert 8 * i + 8 * k == 8 * (i + k);
      }
    }
  }

  lemma {:induction false} TimesZero(p: nat)
    ensures Times(0, p) == 0
  {
  }

  /** A load that begins with a label of whole bytes, other than an input byte, an extract or bounds, is decided: it has
      the value of the pieces, the last one cut, if the first label fits into the slots. */
  lemma {:induction false} WideLoadMeans(w: World, table: seq<LabelInfo>, limit: nat, ls: seq<nat>, mem: seq<nat>)
    requires Proper(table) && limit <= INITIALIZING && 0 < |ls| == |mem| && 8 * |ls| < WRAP16
    requires Ordered(table) && WideSlots(table, ls) && SlotsOk(table, ls) && StartsWide(table, ls)
    requires table[ls[0]].size <= 8 * |ls| && LoadOf(table, limit, ls, mem).Some?
    ensures
      var m := LoadOf(table, limit, ls, mem).value;
      && Ordered(m.table) && table <= m.table && Holds(m.table, |ls|, m.id)
      && Value(w, m.table, m.id) == Rest(w, table, ls, mem, 0)
  {
    hide *;
    StartIs(table, limit, ls, mem);
    SlowMeansWide(w, table, limit, ls, mem, table[ls[0]].size / 8, ls[0]);
    RestAt(w, table, ls, mem, 0);
  }

  /** A first label that is wider than the load is not cut, so that the load is exact if and only if its value fits. */
  lemma {:induction false} WideFirst(w: World, table: seq<LabelInfo>, limit: nat, ls: seq<nat>, mem: seq<nat>)
    requires Proper(table) && 0 < |ls| == |mem| && Ordered(table) && WideSlots(table, ls) && SlotsOk(table, ls)
    requires StartsWide(table, ls) && table[ls[0]].size > 8 * |ls|
    ensures LoadOf(table, limit, ls, mem) == Some(Made(ls[0], table))
    ensures Value(w, table, ls[0]) == Rest(w, table, ls, mem, 0) <==> Value(w, table, ls[0]) < Pow2(8 * |ls|)
  {
    hide *;
    StartIs(table, limit, ls, mem);
    S.ProperBound(table);
    SlowAt(table, limit, ls, mem, table[ls[0]].size / 8, ls[0]);
    RestAt(w, table, ls, mem, 0);
    if Value(w, table, ls[0]) < Pow2(8 * |ls|) { ModSmall(Value(w, table, ls[0]), Pow2(8 * |ls|)); }
  }

  predicate StartsWide(table: seq<LabelInfo>, ls: seq<nat>) {
    |ls| > 0 && 0 < ls[0] < |table| && table[ls[0]].op !in {Input, Extract, Alloca}
  }

  lemma {:induction false} StartIs(table: seq<LabelInfo>, limit: nat, ls: seq<nat>, mem: seq<nat>)
    requires Ordered(table) && |ls| == |mem| && WideSlots(table, ls) && SlotsOk(table, ls) && StartsWide(table, ls)
    ensures
      var size := table[ls[0]].size;
      && 0 < ls[0] < |table| && size > 0 && size == 8 * (size / 8) && Holds(table, size / 8, ls[0])
      && LoadOf(table, limit, ls, mem) == Slow(table, limit, ls, mem, size / 8, ls[0])
  {
    hide Slow, LabelBits, Parts, Shape, AllSame;
    SlotIs(table, ls, 0);
  }
}
