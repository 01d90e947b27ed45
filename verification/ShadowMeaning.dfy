/** What __taint_union_load returns stands for the loaded bytes, the first one lowest. */
module ShadowMeaning {
  import opened Base
  import opened Labels
  import opened Z3Expr
  import opened LabelValues
  import opened LabelTable
  import opened LabelMeaning
  import opened ShadowMemory

  /** Every slot is concrete or holds a label of one byte that is no bounds label. */
  predicate ByteSlots(table: seq<LabelInfo>, ls: seq<nat>)
    requires Ordered(table)
  {
    forall i :: 0 <= i < |ls| ==> ByteSlot(table, ls[i])
  }

  predicate ByteSlot(table: seq<LabelInfo>, l: nat)
    requires Ordered(table)
  {
    l < |table| && (l != 0 ==> table[l].size == 8 && LabelBits(table, l) == 8 && !IsBounds(table, l))
  }

  /** The value of one loaded byte. */
  function ByteAt(w: World, table: seq<LabelInfo>, ls: seq<nat>, mem: seq<nat>, i: nat): nat
    requires Ordered(table) && i < |ls| == |mem| && ls[i] < |table|
  {
    if ls[i] == 0 then mem[i] % 256 else Value(w, table, ls[i])
  }

  /** The first `n` bytes as one number, the bytes before `lead` read as zero. */
  function Little(w: World, table: seq<LabelInfo>, ls: seq<nat>, mem: seq<nat>, lead: nat, n: nat): nat
    requires Ordered(table) && n <= |ls| == |mem| && ByteSlots(table, ls)
  {
    if n == 0 then 0
    else
      assert ByteSlot(table, ls[n - 1]);
      Little(w, table, ls, mem, lead, n - 1)
      + Times(if n - 1 < lead then 0 else ByteAt(w, table, ls, mem, n - 1), Pow2(8 * (n - 1)))
  }

  lemma {:induction false} LittleLead(w: World, table: seq<LabelInfo>, ls: seq<nat>, mem: seq<nat>, lead: nat, n: nat)
    requires Ordered(table) && n <= |ls| == |mem| && ByteSlots(table, ls) && n <= lead
    ensures Little(w, table, ls, mem, lead, n) == 0
  {
    if n > 0 { LittleLead(w, table, ls, mem, lead, n - 1); }
  }

  lemma {:induction false} SlotsGrowToo(table: seq<LabelInfo>, later: seq<LabelInfo>, ls: seq<nat>)
    requires Ordered(table) && Ordered(later) && table <= later && ByteSlots(table, ls)
    ensures ByteSlots(later, ls)
  {
    forall i | 0 <= i < |ls| ensures ByteSlot(later, ls[i]) {
      assert ByteSlot(table, ls[i]);
      BitsPrefix(table, later, ls[i]);
    }
  }

  lemma {:induction false} LittleGrows(w: World, table: seq<LabelInfo>, later: seq<LabelInfo>, ls: seq<nat>,
                                       mem: seq<nat>, lead: nat, n: nat)
    requires Ordered(table) && Ordered(later) && table <= later && n <= |ls| == |mem|
    requires ByteSlots(table, ls) && ByteSlots(later, ls)
    ensures Little(w, later, ls, mem, lead, n) == Little(w, table, ls, mem, lead, n)
  {
    if n > 0 {
      LittleGrows(w, table, later, ls, mem, lead, n - 1);
      assert ByteSlot(table, ls[n - 1]);
      ValuePrefix(w, table, later, ls[n - 1]);
    }
  }

  // ---- the slow path ----

  lemma {:induction false} SignedByteLow(c: nat)
    ensures SignedByte(c) % Pow2(8) == c % 256
  {
    Pow2Of8();
  }

  /** One step of the slow path puts the next byte on top. */
  lemma {:induction false} ConcatNode(w: World, table: seq<LabelInfo>, l: nat, next: nat, i: nat, op2: nat)
    requires Proper(table) && l < |table| && next < |table| && 8 * (i + 1) < WRAP16
    requires l != 0 ==> table[l].size == 8 * i && LabelBits(table, l) == 8 * i && !IsBounds(table, l)
    requires l == 0 ==> next != 0 && 8 * i < 256
    requires ByteSlot(table, next)
    ensures PlainCall(table, ConcatCall(l, next, i + 1, op2))
    ensures
      var high := if next == 0 then op2 % Pow2(8) else Value(w, table, next);
      var a := ConcatCall(l, next, i + 1, op2);
      && NodeBits(table, a) == 8 * (i + 1) && Ordered(table + [a])
      && NodeValue(w, table, a) == (if l == 0 then 0 else Value(w, table, l)) + Times(high, Pow2(8 * i))
  {
    hide Value, LabelBits, Pow2, Times, AllWiden;
    var a := ConcatCall(l, next, i + 1, op2);
    var t := table + [a];
    ValuePrefix(w, table, t, l);
    ValuePrefix(w, table, t, next);
    ConcatIs(w, t, |table|);
    ModSmall(8 * (i + 1), WRAP16);
    ModSmall(0, Pow2(8 * i));
  }

  /** The definitions at a Concat. */
  lemma {:induction false} ConcatIs(w: World, t: seq<LabelInfo>, n: nat)
    requires Ordered(t) && 0 < n < |t| && t[n].op == Concat
    ensures
      var a := t[n];
      var r1, r2 := ConcatRest(t, a, a.l1), ConcatRest(t, a, a.l2);
      && LabelBits(t, n) == (if a.l1 == 0 then r2 else LabelBits(t, a.l1)) + (if a.l2 == 0 then r1 else LabelBits(t, a.l2))
      && Value(w, t, n) ==
           if a.l1 == 0 then a.op1 % Pow2(r2) + Times(Value(w, t, a.l2), Pow2(r2))
           else Value(w, t, a.l1) + Times(if a.l2 == 0 then a.op2 % Pow2(r1) else Value(w, t, a.l2), Pow2(LabelBits(t, a.l1)))
  {
    hide Pow2, Times;
  }

  /** The label `l` stands for the first `i` bytes, or they are all concrete and leading. */
  ghost predicate StandsFor(w: World, table: seq<LabelInfo>, ls: seq<nat>, mem: seq<nat>, lead: nat, i: nat, l: nat)
    requires Ordered(table) && i <= |ls| == |mem| && ByteSlots(table, ls)
  {
    if i <= lead then l == 0
    else
      && 0 < l < |table| && table[l].size == 8 * i && LabelBits(table, l) == 8 * i && !IsBounds(table, l)
      && Value(w, table, l) == Little(w, table, ls, mem, lead, i)
  }

  ghost predicate Loading(table: seq<LabelInfo>, limit: nat, ls: seq<nat>, mem: seq<nat>, lead: nat) {
    && Proper(table) && limit <= INITIALIZING && |ls| == |mem| && 8 * |ls| < WRAP16
    && ByteSlots(table, ls) && lead < |ls| && 8 * lead < 256
    && (forall i :: 0 <= i < lead ==> ls[i] == 0) && ls[lead] != 0
  }

  lemma {:induction false} LoadingGrows(table: seq<LabelInfo>, later: seq<LabelInfo>, limit: nat, ls: seq<nat>,
                                        mem: seq<nat>, lead: nat)
    requires Loading(table, limit, ls, mem, lead) && Proper(later) && table <= later
    ensures Loading(later, limit, ls, mem, lead)
  {
    SlotsGrowToo(table, later, ls);
    hide ByteSlots, Proper;
  }

  function SlowCall(ls: seq<nat>, mem: seq<nat>, i: nat, l: nat): LabelInfo
    requires i < |ls| == |mem|
  {
    ConcatCall(l, ls[i], i + 1, if ls[i] == 0 then SignedByte(mem[i]) else 0)
  }

  /** The node asked for in one round of the slow path stands for one more byte. */
  lemma {:induction false} SlowNode(w: World, table: seq<LabelInfo>, limit: nat, ls: seq<nat>, mem: seq<nat>,
                                    lead: nat, i: nat, l: nat)
    requires Loading(table, limit, ls, mem, lead) && lead <= i < |ls| && StandsFor(w, table, ls, mem, lead, i, l)
    ensures
      var a := SlowCall(ls, mem, i, l);
      && PlainCall(table, a) && Ordered(table + [a]) && a.op == Concat && (a.l1 != 0 || a.l2 != 0)
      && a.size == 8 * (i + 1)
      && NodeBits(table, a) == 8 * (i + 1) && NodeValue(w, table, a) == Little(w, table, ls, mem, lead, i + 1)
  {
    var a := SlowCall(ls, mem, i, l);
    assert ByteSlot(table, ls[i]);
    SignedByteLow(mem[i]);
    LittleLead(w, table, ls, mem, lead, lead);
    hide Value, LabelBits, Pow2, SignedByte, NodeValue, NodeBits, Times, Proper, PlainCall, ByteSlots;
    ConcatNode(w, table, l, ls[i], i, a.op2);
  }

  /** A Concat with a symbolic operand is looked up or made as it is asked for. */
  lemma {:induction false} ConcatEntry(table: seq<LabelInfo>, limit: nat, a: LabelInfo)
    requires Proper(table) && PlainCall(table, a) && a.op == Concat && (a.l1 != 0 || a.l2 != 0)
    requires UnionOf(table, limit, a).Some?
    ensures var m := UnionOf(table, limit, a).value;
      0 < m.id < |m.table| && m.table[m.id].op == Concat && m.table[m.id].size == a.size
  {
    PlainPrepare(table, a);
    hide Prepare;
  }

  lemma {:induction false} ConcatMade(w: World, table: seq<LabelInfo>, limit: nat, a: LabelInfo)
    requires Proper(table) && PlainCall(table, a) && a.op == Concat && (a.l1 != 0 || a.l2 != 0)
    requires limit <= INITIALIZING && UnionOf(table, limit, a).Some?
    ensures var m := UnionOf(table, limit, a).value;
      && Proper(m.table) && table <= m.table && Ordered(table + [a])
      && 0 < m.id < |m.table| && m.table[m.id].op == Concat && m.table[m.id].size == a.size
      && Value(w, m.table, m.id) == NodeValue(w, table, a) && LabelBits(m.table, m.id) == NodeBits(table, a)
  {
    hide UnionOf, Value, LabelBits, NodeValue, NodeBits, PlainCall, AllWiden, WellMade, MachineCall;
    ConcatEntry(table, limit, a);
    ProperBound(table);
    NoMachine(table, a);
    UnionMeans(w, table, limit, a);
    ProperIsSized(table, a);
    StepProper(table, limit, Union(a));
    StepKeeps(table, limit, Union(a));
  }

  lemma {:induction false} NoMachine(table: seq<LabelInfo>, a: LabelInfo)
    requires Ordered(table) && a.op == Concat
    ensures !MachineCall(table, a)
  {
  }

  lemma {:induction false} LoadingIs(table: seq<LabelInfo>, limit: nat, ls: seq<nat>, mem: seq<nat>, lead: nat)
    requires Loading(table, limit, ls, mem, lead)
    ensures Proper(table) && Ordered(table) && |table| <= INITIALIZING && limit <= INITIALIZING
    ensures lead < |ls| == |mem| && ByteSlots(table, ls) && 8 * |ls| < WRAP16 && WellMade(table)
    ensures lead > 0 ==> ls[0] == 0
  {
  }

  lemma {:induction false} Stands(w: World, table: seq<LabelInfo>, ls: seq<nat>, mem: seq<nat>, lead: nat, i: nat, l: nat)
    requires Ordered(table) && i <= |ls| == |mem| && ByteSlots(table, ls) && i > lead
    requires 0 < l < |table| && table[l].op == Concat && table[l].size == 8 * i && LabelBits(table, l) == 8 * i
    requires Value(w, table, l) == Little(w, table, ls, mem, lead, i)
    ensures StandsFor(w, table, ls, mem, lead, i, l)
  {
  }

  /** What one union of the slow path gives. */
  lemma {:induction false} ConcatRound(w: World, table: seq<LabelInfo>, limit: nat, ls: seq<nat>, mem: seq<nat>,
                                      lead: nat, i: nat, l: nat)
    requires Loading(table, limit, ls, mem, lead) && lead <= i < |ls| && StandsFor(w, table, ls, mem, lead, i, l)
    requires UnionOf(table, limit, SlowCall(ls, mem, i, l)).Some?
    ensures
      var m := UnionOf(table, limit, SlowCall(ls, mem, i, l)).value;
      Loading(m.table, limit, ls, mem, lead) && table <= m.table && StandsFor(w, m.table, ls, mem, lead, i + 1, m.id)
  {
    hide *;
    LoadingIs(table, limit, ls, mem, lead);
    var a := SlowCall(ls, mem, i, l);
    var m := UnionOf(table, limit, a).value;
    SlowNode(w, table, limit, ls, mem, lead, i, l);
    ConcatMade(w, table, limit, a);
    LoadingGrows(table, m.table, limit, ls, mem, lead);
    LoadingIs(m.table, limit, ls, mem, lead);
    LittleGrows(w, table, m.table, ls, mem, lead, i + 1);
    Stands(w, m.table, ls, mem, lead, i + 1, m.id);
  }

  /** The loop of the slow path over bytes. */
  lemma {:induction false} SlowByte(table: seq<LabelInfo>, limit: nat, ls: seq<nat>, mem: seq<nat>, i: nat, l: nat)
    requires Ordered(table) && ByteSlots(table, ls) && |ls| == |mem| && |table| <= INITIALIZING && l < |table|
    ensures i >= |ls| ==> Slow(table, limit, ls, mem, i, l) == Some(Made(l, table))
    ensures i < |ls| ==>
      Slow(table, limit, ls, mem, i, l) ==
        match UnionOf(table, limit, SlowCall(ls, mem, i, l))
        case None => None
        case Some(m) => Slow(m.table, limit, ls, mem, i + 1, m.id)
  {
    hide Slow, UnionOf, LabelBits, SignedByte, InRange;
    if i < |ls| {
      forall k | 0 <= k < |ls| ensures IsLabel(table, ls[k]) { assert ByteSlot(table, ls[k]); }
      assert ByteSlot(table, ls[i]);
      SlowStep(table, limit, ls, mem, i, l);
    } else {
      SlowEnd(table, limit, ls, mem, i, l);
    }
  }

  lemma {:induction false} LeadRound(table: seq<LabelInfo>, limit: nat, ls: seq<nat>, mem: seq<nat>, lead: nat, i: nat)
    requires Loading(table, limit, ls, mem, lead) && i < lead
    ensures UnionOf(table, limit, SlowCall(ls, mem, i, 0)) == Some(Made(0, table))
  {
    hide Proper, ByteSlots;
  }

  lemma {:induction false} StandsLead(w: World, table: seq<LabelInfo>, limit: nat, ls: seq<nat>, mem: seq<nat>, lead: nat,
                                      i: nat, l: nat)
    requires Loading(table, limit, ls, mem, lead) && i <= lead
    ensures Ordered(table) && ByteSlots(table, ls) && (StandsFor(w, table, ls, mem, lead, i, l) <==> l == 0)
  {
  }

  lemma {:induction false} SlowMeans(w: World, table: seq<LabelInfo>, limit: nat, ls: seq<nat>, mem: seq<nat>,
                                     lead: nat, i: nat, l: nat)
    requires Loading(table, limit, ls, mem, lead) && i <= |ls| && StandsFor(w, table, ls, mem, lead, i, l)
    requires Slow(table, limit, ls, mem, i, l).Some?
    ensures
      var m := Slow(table, limit, ls, mem, i, l).value;
      Loading(m.table, limit, ls, mem, lead) && table <= m.table && StandsFor(w, m.table, ls, mem, lead, |ls|, m.id)
    decreases |ls| - i
  {
    hide *;
    LoadingIs(table, limit, ls, mem, lead);
    StandsLabel(w, table, ls, mem, lead, i, l);
    SlowByte(table, limit, ls, mem, i, l);
    if i < lead {
      StandsLead(w, table, limit, ls, mem, lead, i, l);
      LeadRound(table, limit, ls, mem, lead, i);
      StandsLead(w, table, limit, ls, mem, lead, i + 1, 0);
      SlowMeans(w, table, limit, ls, mem, lead, i + 1, 0);
    } else if i < |ls| {
      ConcatRound(w, table, limit, ls, mem, lead, i, l);
      var m := UnionOf(table, limit, SlowCall(ls, mem, i, l)).value;
      SlowMeans(w, m.table, limit, ls, mem, lead, i + 1, m.id);
    }
  }

  lemma {:induction false} StandsLabel(w: World, table: seq<LabelInfo>, ls: seq<nat>, mem: seq<nat>, lead: nat, i: nat,
                                       l: nat)
    requires Ordered(table) && i <= |ls| == |mem| && ByteSlots(table, ls) && StandsFor(w, table, ls, mem, lead, i, l)
    ensures l < |table|
  {
  }

  lemma {:induction false} ProperBound(table: seq<LabelInfo>)
    requires Proper(table)
    ensures Ordered(table) && |table| <= INITIALIZING
  {
  }

  // ---- the shape test ----

  /** The load is answered by the shape test: going by op1, the bytes are consecutive input bytes. */
  predicate Shaped(table: seq<LabelInfo>, ls: seq<nat>)
    requires Ordered(table) && ByteSlots(table, ls) && SlotsOk(table, ls) && |ls| > 0
  {
    assert ByteSlot(table, ls[0]) && forall i :: 0 <= i < |ls| ==> ByteSlot(table, ls[i]);
    table[ls[0]].op == Input && forall i :: 0 < i < |ls| ==> table[ls[i]].op1 == table[ls[0]].op1 + i
  }

  /** Byte `i` happens to equal the input byte `i` places after `offset`. */
  predicate Matches(w: World, table: seq<LabelInfo>, ls: seq<nat>, mem: seq<nat>, offset: nat, i: nat)
    requires Ordered(table) && i < |ls| == |mem| && ByteSlots(table, ls)
  {
    assert ByteSlot(table, ls[i]);
    ByteAt(w, table, ls, mem, i) == w.input((0, offset + i)) % 256
  }

  ghost predicate AllMatch(w: World, table: seq<LabelInfo>, ls: seq<nat>, mem: seq<nat>, offset: nat, n: nat)
    requires Ordered(table) && n <= |ls| == |mem| && ByteSlots(table, ls)
  {
    forall i :: 0 <= i < n ==> Matches(w, table, ls, mem, offset, i)
  }

  lemma {:induction false} AllMatchNext(w: World, table: seq<LabelInfo>, ls: seq<nat>, mem: seq<nat>, offset: nat, n: nat)
    requires Ordered(table) && 0 < n <= |ls| == |mem| && ByteSlots(table, ls)
    ensures AllMatch(w, table, ls, mem, offset, n)
      <==> AllMatch(w, table, ls, mem, offset, n - 1) && Matches(w, table, ls, mem, offset, n - 1)
  {
    hide Matches;
  }

  lemma {:induction false} ByteRange(w: World, table: seq<LabelInfo>, ls: seq<nat>, mem: seq<nat>, i: nat)
    requires Ordered(table) && AllWiden(table) && i < |ls| == |mem| && ByteSlots(table, ls)
    ensures ls[i] < |table| && ByteSlot(table, ls[i]) && ByteAt(w, table, ls, mem, i) < 256
  {
    assert ByteSlot(table, ls[i]);
    ValueRange(w, table, ls[i]);
    Pow2Of8();
    hide Pow2, Value, LabelBits;
  }

  lemma {:induction false} LittleRange(w: World, table: seq<LabelInfo>, ls: seq<nat>, mem: seq<nat>, n: nat)
    requires Ordered(table) && AllWiden(table) && n <= |ls| == |mem| && ByteSlots(table, ls)
    ensures Little(w, table, ls, mem, 0, n) < Pow2(8 * n)
  {
    hide Pow2, Times, ByteAt, ByteSlots, AllWiden;
    if n > 0 {
      LittleRange(w, table, ls, mem, n - 1);
      ByteRange(w, table, ls, mem, n - 1);
      Pow2Of8();
      JoinRange(ByteAt(w, table, ls, mem, n - 1), Little(w, table, ls, mem, 0, n - 1), 8, 8 * (n - 1));
      assert 8 + 8 * (n - 1) == 8 * n;
    }
  }

  /** The highest digit and the rest determine each other. */
  lemma {:induction false} DigitsUnique(x: nat, y: nat, a: nat, b: nat, p: nat)
    requires x < p && y < p
    ensures x + Times(a, p) == y + Times(b, p) <==> x == y && a == b
  {
    if a < b {
      TimesMonotone(a + 1, b, p);
      Distribute(a, 1, p);
    } else if b < a {
      TimesMonotone(b + 1, a, p);
      Distribute(b, 1, p);
    }
  }

  /** Two numbers are the same if and only if their bytes are. */
  lemma {:induction false} BytesLittle(w: World, table: seq<LabelInfo>, ls: seq<nat>, mem: seq<nat>, offset: nat, n: nat)
    requires Ordered(table) && AllWiden(table) && 0 < n <= |ls| == |mem| && ByteSlots(table, ls)
    ensures Little(w, table, ls, mem, 0, n) == Bytes(w.input, (0, offset), n) <==> AllMatch(w, table, ls, mem, offset, n)
  {
    hide *;
    AllMatchNext(w, table, ls, mem, offset, n);
    ByteRange(w, table, ls, mem, n - 1);
    LittleNext(w, table, ls, mem, offset, n);
    if n > 1 {
      BytesLittle(w, table, ls, mem, offset, n - 1);
      LittleRange(w, table, ls, mem, n - 1);
      BytesRange(w.input, (0, offset), n - 1);
      SameSize(n - 1);
      DigitsUnique(Little(w, table, ls, mem, 0, n - 1), Bytes(w.input, (0, offset), n - 1),
                   ByteAt(w, table, ls, mem, n - 1), w.input((0, offset + n - 1)) % 256, Pow2(8 * (n - 1)));
    }
  }

  lemma {:induction false} SameSize(n: nat)
    requires n > 0
    ensures LoadSize(n) == n
  {
  }

  /** The definitions at the last byte. */
  lemma {:induction false} LittleNext(w: World, table: seq<LabelInfo>, ls: seq<nat>, mem: seq<nat>, offset: nat, n: nat)
    requires Ordered(table) && 0 < n <= |ls| == |mem| && ByteSlots(table, ls) && ByteSlot(table, ls[n - 1])
    ensures Matches(w, table, ls, mem, offset, n - 1)
      <==> ByteAt(w, table, ls, mem, n - 1) == w.input((0, offset + n - 1)) % 256
    ensures n == 1 ==>
      && Little(w, table, ls, mem, 0, 1) == ByteAt(w, table, ls, mem, 0)
      && Bytes(w.input, (0, offset), 1) == w.input((0, offset)) % 256 && AllMatch(w, table, ls, mem, offset, 0)
    ensures n > 1 ==>
      && Little(w, table, ls, mem, 0, n)
         == Little(w, table, ls, mem, 0, n - 1) + Times(ByteAt(w, table, ls, mem, n - 1), Pow2(8 * (n - 1)))
      && Bytes(w.input, (0, offset), n)
         == Bytes(w.input, (0, offset), n - 1) + Times(w.input((0, offset + n - 1)) % 256, Pow2(8 * (n - 1)))
  {
    hide ByteAt, ByteSlots;
    if n == 1 {
      assert Pow2(0) == 1;
      assert Little(w, table, ls, mem, 0, 0) == 0;
    }
  }

  // ---- extracted bytes ----

  /** `n` bytes of a number. */
  function Digits(x: nat, n: nat): nat {
    if n == 0 then 0 else Digits(x, n - 1) + Times(x / Pow2(8 * (n - 1)) % 256, Pow2(8 * (n - 1)))
  }

  lemma {:induction false} Regroup(p: nat, d: nat, e: nat, r: nat)
    requires r < p && e < 256
    ensures (256 * d + e) * p + r == (r + e * p) + p * 256 * d && r + e * p < p * 256
  {
    TimesMonotone(e, 255, p);
    Distribute(256 * d, e, p);
    Reorder(p, d);
  }

  lemma {:induction false} Distribute(a: nat, b: nat, p: nat)
    ensures (a + b) * p == a * p + b * p
  {
  }

  lemma {:induction false} Reorder(p: nat, d: nat)
    ensures 256 * d * p == p * 256 * d
  {
  }

  lemma {:induction false} SplitModulo(x: nat, p: nat, q: nat, r: nat, d: nat, e: nat)
    requires x == q * p + r && r < p && q == 256 * d + e && e < 256
    ensures x % (p * 256) == r + e * p
  {
    Regroup(p, d, e, r);
    AddMultiple(r + e * p, p * 256, d);
    ModSmall(r + e * p, p * 256);
  }

  lemma {:induction false} Pow2Byte(n: nat)
    requires n > 0
    ensures Pow2(8 * n) == Pow2(8 * (n - 1)) * 256
  {
    Pow2Of8();
    Pow2Add(8 * (n - 1), 8);
    assert 8 * (n - 1) + 8 == 8 * n;
  }

  /** One more byte of a number. */
  lemma {:induction false} NextDigit(x: nat, p: nat)
    requires p > 0
    ensures x % (p * 256) == x % p + Times(x / p % 256, p)
  {
    var q := x / p;
    assert x == q * p + x % p;
    assert q == 256 * (q / 256) + q % 256;
    SplitModulo(x, p, q, x % p, q / 256, q % 256);
  }

  lemma {:induction false} DigitsAre(x: nat, n: nat)
    ensures Digits(x, n) == x % Pow2(8 * n)
  {
    if n == 0 {
      assert Pow2(0) == 1;
    } else {
      DigitsAre(x, n - 1);
      NextDigit(x, Pow2(8 * (n - 1)));
      Pow2Byte(n);
    }
    hide Pow2, Times;
  }

  lemma {:induction false} PartsAre(table: seq<LabelInfo>, ls: seq<nat>, parent: nat, i: nat)
    requires SlotsOk(table, ls) && i <= |ls| && forall k :: 0 <= k < |ls| ==> ls[k] < |table|
    requires forall k :: 0 <= k < |ls| && table[ls[k]].op == Extract ==> table[ls[k]].size == 8
    requires Parts(table, ls, parent, i, 8 * i) == Some(8 * |ls|)
    ensures forall k :: i <= k < |ls| ==> IsPart(table, ls[k], parent, 8 * k)
    decreases |ls| - i
  {
    if i < |ls| {
      assert 8 * i + 8 == 8 * (i + 1);
      PartsAre(table, ls, parent, i + 1);
    }
  }

  lemma {:induction false} PartsLittle(w: World, table: seq<LabelInfo>, ls: seq<nat>, mem: seq<nat>, parent: nat, n: nat)
    requires WellMade(table) && n <= |ls| == |mem| && ByteSlots(table, ls) && parent < |table|
    requires forall k :: 0 <= k < |ls| ==> ls[k] < |table| && IsPart(table, ls[k], parent, 8 * k)
    ensures Little(w, table, ls, mem, 0, n) == Digits(Value(w, table, parent), n)
  {
    if n > 0 {
      PartsLittle(w, table, ls, mem, parent, n - 1);
      var l := ls[n - 1];
      assert IsPart(table, l, parent, 8 * (n - 1)) && ByteSlot(table, l);
      Pow2Of8();
      assert Value(w, table, l) == Value(w, table, parent) / Pow2(8 * (n - 1)) % Pow2(8);
    }
  }

  // ---- the theorem ----

  lemma {:induction false} SlotsAreLabels(table: seq<LabelInfo>, ls: seq<nat>)
    requires Ordered(table) && |table| <= INITIALIZING && ByteSlots(table, ls)
    ensures SlotsOk(table, ls) && forall k :: 0 <= k < |ls| ==> ls[k] < |table|
  {
    forall k | 0 <= k < |ls| ensures ls[k] < |table| && IsLabel(table, ls[k]) { assert ByteSlot(table, ls[k]); }
  }

  lemma {:induction false} NoUninit(table: seq<LabelInfo>, ls: seq<nat>, offset: nat, i: nat)
    requires SlotsOk(table, ls) && forall k :: 0 <= k < |ls| ==> ls[k] < |table|
    ensures Shape(table, ls, offset, i) != Uninit
    ensures Shape(table, ls, offset, i) == All <==> forall k :: i <= k < |ls| ==> table[ls[k]].op1 == offset + k
    decreases |ls| - i
  {
    if i < |ls| { NoUninit(table, ls, offset, i + 1); }
  }

  lemma {:induction false} NoUninitPart(table: seq<LabelInfo>, ls: seq<nat>, parent: nat, i: nat, offset: nat)
    requires SlotsOk(table, ls) && forall k :: 0 <= k < |ls| ==> ls[k] < |table|
    ensures Parts(table, ls, parent, i, offset).Some?
    decreases |ls| - i
  {
    if i < |ls| { NoUninitPart(table, ls, parent, i + 1, offset + table[ls[i]].size); }
  }

  lemma {:induction false} LeadDiffers(ls: seq<nat>, lead: nat, i: nat)
    requires 0 < i <= lead < |ls| && ls[lead] != 0 && ls[lead] != INITIALIZING
    requires forall k :: 0 <= k < lead ==> ls[k] == 0
    ensures AllSame(ls, 0, i) == Broken
    decreases lead - i
  {
    if i < lead { LeadDiffers(ls, lead, i + 1); }
  }

  /** The first label by itself. */
  lemma {:induction false} FirstByte(w: World, table: seq<LabelInfo>, limit: nat, ls: seq<nat>, mem: seq<nat>)
    requires Loading(table, limit, ls, mem, 0)
    ensures Ordered(table) && ByteSlots(table, ls) && 0 < ls[0] < |table| && table[ls[0]].size == 8
    ensures StandsFor(w, table, ls, mem, 0, 1, ls[0])
  {
    assert ByteSlot(table, ls[0]);
    assert Pow2(0) == 1;
    assert Little(w, table, ls, mem, 0, 0) == 0;
    hide Pow2, Value, LabelBits;
  }

  ghost predicate Right(w: World, table: seq<LabelInfo>, ls: seq<nat>, mem: seq<nat>, lead: nat, m: Made)
    requires Ordered(table) && |ls| == |mem| && ByteSlots(table, ls)
  {
    Ordered(m.table) && 0 < m.id < |m.table| && Value(w, m.table, m.id) == Little(w, table, ls, mem, lead, |ls|)
  }

  lemma {:induction false} SlowRight(w: World, table: seq<LabelInfo>, limit: nat, ls: seq<nat>, mem: seq<nat>, lead: nat,
                                     i: nat, l: nat)
    requires Loading(table, limit, ls, mem, lead) && i <= |ls| && StandsFor(w, table, ls, mem, lead, i, l)
    requires Slow(table, limit, ls, mem, i, l).Some?
    ensures Ordered(table) && Right(w, table, ls, mem, lead, Slow(table, limit, ls, mem, i, l).value)
  {
    hide Slow, Value, LabelBits, Proper, ByteSlots;
    SlowMeans(w, table, limit, ls, mem, lead, i, l);
    var m := Slow(table, limit, ls, mem, i, l).value;
    LoadingIs(table, limit, ls, mem, lead);
    LoadingIs(m.table, limit, ls, mem, lead);
    LittleGrows(w, table, m.table, ls, mem, lead, |ls|);
  }

  lemma {:induction false} ParentRight(w: World, table: seq<LabelInfo>, limit: nat, ls: seq<nat>, mem: seq<nat>, parent: nat)
    requires Loading(table, limit, ls, mem, 0) && SlotsOk(table, ls)
    requires 0 < parent < |table| && table[parent].size == 8 * |ls| && Parts(table, ls, parent, 0, 0) == Some(8 * |ls|)
    ensures Ordered(table) && ByteSlots(table, ls) && Right(w, table, ls, mem, 0, Made(parent, table))
  {
    LoadingIs(table, limit, ls, mem, 0);
    SlotsAreLabels(table, ls);
    forall k | 0 <= k < |ls| && table[ls[k]].op == Extract ensures table[ls[k]].size == 8 {
      assert ByteSlot(table, ls[k]);
    }
    PartsAre(table, ls, parent, 0);
    PartsLittle(w, table, ls, mem, parent, |ls|);
    DigitsAre(Value(w, table, parent), |ls|);
    ParentFits(w, table, parent);
    ModSmall(Value(w, table, parent), Pow2(8 * |ls|));
    hide Pow2, Value, LabelBits, Parts, Proper;
  }

  lemma {:induction false} ParentFits(w: World, table: seq<LabelInfo>, l: nat)
    requires Proper(table) && 0 < l < |table| && table[l].size > 0
    ensures Value(w, table, l) < Pow2(table[l].size)
  {
    ValueRange(w, table, l);
    assert Sized(table, l);
    if IsCompare(table[l].op) {
      CompareValue(w, table, l);
      OneBit(Value(w, table, l) == 1, table[l].size);
    }
  }

  lemma {:induction false} ProperExtract(table: seq<LabelInfo>, l: nat)
    requires Proper(table) && 0 < l < |table| && table[l].op == Extract
    ensures 0 < table[l].l1
  {
    assert Widens(table, l);
  }

  lemma {:induction false} PartsRight(w: World, table: seq<LabelInfo>, limit: nat, ls: seq<nat>, mem: seq<nat>)
    requires Loading(table, limit, ls, mem, 0) && SlotsOk(table, ls) && LoadParts(table, limit, ls, mem).Some?
    ensures Ordered(table) && ByteSlots(table, ls) && Right(w, table, ls, mem, 0, LoadParts(table, limit, ls, mem).value)
  {
    hide Slow, Parts, Value, LabelBits, Proper, ByteSlots, Right, StandsFor;
    LoadingIs(table, limit, ls, mem, 0);
    SlotsAreLabels(table, ls);
    FirstByte(w, table, limit, ls, mem);
    var parent := table[ls[0]].l1;
    NoUninitPart(table, ls, parent, 0, 0);
    if LoadParts(table, limit, ls, mem) == Slow(table, limit, ls, mem, 1, ls[0]) {
      SlowRight(w, table, limit, ls, mem, 0, 1, ls[0]);
    } else {
      ProperExtract(table, ls[0]);
      ParentRight(w, table, limit, ls, mem, parent);
    }
  }

  lemma {:induction false} LoadNode(w: World, table: seq<LabelInfo>, first: nat, n: nat)
    requires Proper(table) && first < |table| && table[first].op == Input && 0 < n < |table| && 8 * n < WRAP16
    ensures PlainCall(table, LoadCall(first, n)) && Ordered(table + [LoadCall(first, n)])
    ensures NodeValue(w, table, LoadCall(first, n)) == Bytes(w.input, (0, table[first].op1), n)
  {
    ModSmall(8 * n, WRAP16);
    hide Bytes;
  }

  /** The Load label of consecutive input bytes. */
  lemma {:induction false} LoadRight(w: World, table: seq<LabelInfo>, limit: nat, first: nat, n: nat)
    requires Proper(table) && limit <= INITIALIZING && first < |table| && table[first].op == Input && 1 < n && 8 * n < WRAP16
    requires UnionOf(table, limit, LoadCall(first, n)).Some?
    ensures var m := UnionOf(table, limit, LoadCall(first, n)).value;
      Ordered(m.table) && 0 < m.id < |m.table| && Value(w, m.table, m.id) == Bytes(w.input, (0, table[first].op1), n)
  {
    var a := LoadCall(first, n);
    var m := UnionOf(table, limit, a).value;
    LoadPrepare(table, first, n);
    StepKeeps(table, limit, Union(a));
    hide Prepare, Bytes, Value, LabelBits, NodeValue, PlainCall;
    assert m.table[m.id] == a && n < |table|;
    LoadNode(w, table, first, n);
    UnionMeans(w, table, limit, a);
  }

  lemma {:induction false} OneByte(w: World, table: seq<LabelInfo>, limit: nat, ls: seq<nat>, mem: seq<nat>)
    requires Loading(table, limit, ls, mem, 0) && |ls| == 1 && table[ls[0]].op == Input
    ensures 0 < ls[0] < |table| && Ordered(table)
    ensures Value(w, table, ls[0]) == Bytes(w.input, (0, table[ls[0]].op1), 1)
  {
    assert ByteSlot(table, ls[0]);
  }

  /** Which path answers. */
  lemma {:induction false} LoadPath(table: seq<LabelInfo>, limit: nat, ls: seq<nat>, mem: seq<nat>, lead: nat)
    requires Loading(table, limit, ls, mem, lead)
    ensures Ordered(table) && SlotsOk(table, ls) && ls[0] < |table| && (lead > 0 ==> |ls| > 1)
    ensures Shaped(table, ls) ==>
      && table[ls[0]].op == Input
      && LoadOf(table, limit, ls, mem)
         == if |ls| == 1 then Some(Made(ls[0], table)) else UnionOf(table, limit, LoadCall(ls[0], |ls|))
    ensures !Shaped(table, ls) ==> LoadOf(table, limit, ls, mem) == LoadParts(table, limit, ls, mem)
  {
    hide LoadParts, Shape, AllSame, LabelBits, AllWiden, Distinct, UnionOf;
    SlotsAreLabels(table, ls);
    assert ByteSlot(table, ls[0]);
    NoUninit(table, ls, table[ls[0]].op1, 1);
    if lead > 0 {
      LeadDiffers(ls, lead, 1);
    }
  }

  /** A load of at most 8191 slots, each concrete or an 8-bit label, with a label after fewer than 32 concrete bytes.
      The result of the shape test has the value of the input bytes that it names; any other result has the value of
      the bytes, the first one lowest and the concrete bytes before the first label read as zero. */
  lemma {:induction false} LoadMeans(w: World, table: seq<LabelInfo>, limit: nat, ls: seq<nat>, mem: seq<nat>, lead: nat)
    requires Loading(table, limit, ls, mem, lead) && SlotsOk(table, ls) && LoadOf(table, limit, ls, mem).Some?
    ensures var m := LoadOf(table, limit, ls, mem).value;
      && Ordered(table) && Ordered(m.table) && 0 < m.id < |m.table| && ls[0] < |table|
      && Value(w, m.table, m.id) ==
           if Shaped(table, ls) then Bytes(w.input, (0, table[ls[0]].op1), |ls|)
           else Little(w, table, ls, mem, lead, |ls|)
  {
    hide *;
    LoadingIs(table, limit, ls, mem, lead);
    LoadPath(table, limit, ls, mem, lead);
    if Shaped(table, ls) {
      if |ls| == 1 {
        OneByte(w, table, limit, ls, mem);
      } else {
        LoadRight(w, table, limit, ls[0], |ls|);
      }
    } else if lead == 0 {
      PartsRight(w, table, limit, ls, mem);
      RightIs(w, table, ls, mem, lead, LoadOf(table, limit, ls, mem).value);
    } else {
      LeadParts(table, limit, ls, mem);
      StandsLead(w, table, limit, ls, mem, lead, 1, 0);
      SlowRight(w, table, limit, ls, mem, lead, 1, 0);
      RightIs(w, table, ls, mem, lead, LoadOf(table, limit, ls, mem).value);
    }
  }

  lemma {:induction false} RightIs(w: World, table: seq<LabelInfo>, ls: seq<nat>, mem: seq<nat>, lead: nat, m: Made)
    requires Ordered(table) && |ls| == |mem| && ByteSlots(table, ls) && Right(w, table, ls, mem, lead, m)
    ensures Ordered(m.table) && 0 < m.id < |m.table|
    ensures Value(w, m.table, m.id) == Little(w, table, ls, mem, lead, |ls|)
  {
  }

  lemma {:induction false} LeadParts(table: seq<LabelInfo>, limit: nat, ls: seq<nat>, mem: seq<nat>)
    requires |ls| > 0 && |mem| == |ls| && SlotsOk(table, ls) && ls[0] == 0 && WellMade(table)
    ensures LoadParts(table, limit, ls, mem) == Slow(table, limit, ls, mem, 1, 0)
  {
    hide Slow;
  }

  // ---- leading concrete bytes ----

  ghost predicate LeadZero(w: World, table: seq<LabelInfo>, ls: seq<nat>, mem: seq<nat>, lead: nat, n: nat)
    requires Ordered(table) && n <= |ls| == |mem| && ByteSlots(table, ls)
  {
    forall i :: 0 <= i < n && i < lead ==> ByteZero(w, table, ls, mem, i)
  }

  lemma {:induction false} LeadZeroNext(w: World, table: seq<LabelInfo>, ls: seq<nat>, mem: seq<nat>, lead: nat, n: nat)
    requires Ordered(table) && 0 < n <= |ls| == |mem| && ByteSlots(table, ls)
    ensures LeadZero(w, table, ls, mem, lead, n)
      <==> LeadZero(w, table, ls, mem, lead, n - 1) && (n - 1 < lead ==> ByteZero(w, table, ls, mem, n - 1))
  {
    hide ByteZero;
  }

  /** Bytes before the first label count for what they add. */
  lemma {:induction false} LeadCost(w: World, table: seq<LabelInfo>, ls: seq<nat>, mem: seq<nat>, lead: nat, n: nat)
    requires Ordered(table) && n <= |ls| == |mem| && ByteSlots(table, ls)
    ensures Little(w, table, ls, mem, lead, n) <= Little(w, table, ls, mem, 0, n)
    ensures Little(w, table, ls, mem, lead, n) == Little(w, table, ls, mem, 0, n) <==> LeadZero(w, table, ls, mem, lead, n)
  {
    if n > 0 {
      LeadCost(w, table, ls, mem, lead, n - 1);
      LeadZeroNext(w, table, ls, mem, lead, n);
      assert ByteSlot(table, ls[n - 1]);
      TimesZero(0, Pow2(8 * (n - 1)));
      TimesZero(ByteAt(w, table, ls, mem, n - 1), Pow2(8 * (n - 1)));
      hide Times, Pow2, Value, LeadZero;
    }
  }

  ghost predicate ByteZero(w: World, table: seq<LabelInfo>, ls: seq<nat>, mem: seq<nat>, i: nat)
    requires Ordered(table) && i < |ls| == |mem| && ByteSlots(table, ls)
  {
    assert ByteSlot(table, ls[i]);
    ByteAt(w, table, ls, mem, i) == 0
  }

  lemma {:induction false} TimesZero(v: nat, p: nat)
    requires p > 0
    ensures Times(v, p) == 0 <==> v == 0
  {
  }

  lemma {:induction false} LeadIsZero(w: World, table: seq<LabelInfo>, limit: nat, ls: seq<nat>, mem: seq<nat>, lead: nat)
    requires Loading(table, limit, ls, mem, lead)
    ensures Ordered(table) && ByteSlots(table, ls)
    ensures LeadZero(w, table, ls, mem, lead, |ls|) <==> forall i :: 0 <= i < lead ==> mem[i] % 256 == 0
  {
    forall i | 0 <= i < lead ensures ByteZero(w, table, ls, mem, i) <==> mem[i] % 256 == 0 {
      assert ls[i] == 0;
    }
    if LeadZero(w, table, ls, mem, lead, |ls|) {
      forall i | 0 <= i < lead ensures mem[i] % 256 == 0 { assert ByteZero(w, table, ls, mem, i); }
    }
  }

  /** So a load that passes the shape test is exact if and only if every byte equals the input byte it is taken for, and
      any other load if and only if the concrete bytes before the first label are zero. */
  lemma {:induction false} LoadIsExact(w: World, table: seq<LabelInfo>, limit: nat, ls: seq<nat>, mem: seq<nat>, lead: nat)
    requires Loading(table, limit, ls, mem, lead) && SlotsOk(table, ls) && LoadOf(table, limit, ls, mem).Some?
    ensures var m := LoadOf(table, limit, ls, mem).value;
      && Ordered(table) && Ordered(m.table) && 0 < m.id < |m.table| && ls[0] < |table|
      && (Value(w, m.table, m.id) == Little(w, table, ls, mem, 0, |ls|)
          <==> if Shaped(table, ls) then AllMatch(w, table, ls, mem, table[ls[0]].op1, |ls|)
               else forall i :: 0 <= i < lead ==> mem[i] % 256 == 0)
  {
    hide *;
    LoadingIs(table, limit, ls, mem, lead);
    LoadMeans(w, table, limit, ls, mem, lead);
    ProperWidens(table);
    BytesLittle(w, table, ls, mem, table[ls[0]].op1, |ls|);
    LeadCost(w, table, ls, mem, lead, |ls|);
    LeadIsZero(w, table, limit, ls, mem, lead);
  }

  lemma {:induction false} ProperWidens(table: seq<LabelInfo>)
    requires Proper(table)
    ensures Ordered(table) && AllWiden(table)
  {
  }

  // ---- bytes that only look like input ----

  /** An input byte, and one minus that byte; the constant is in op1. */
  const DIFFERENCE: seq<LabelInfo> := [
    CONST_ENTRY,
    LabelInfo(0, 0, 0, 0, Input, 8),
    LabelInfo(0, 1, 1, 0, Sub, 8)
  ]

  /** The shape test takes the second byte for input byte 1, as its op1 is 1: the load reads 0 where 256 is meant. */
  lemma {:induction false} ImpostorIsLoaded(w: World, limit: nat, mem: seq<nat>)
    requires Standard(w.arith) && w.input((0, 0)) == 0 && w.input((0, 1)) == 0 && limit > 3 && |mem| == 2
    ensures Ordered(DIFFERENCE) && SlotsOk(DIFFERENCE, [1, 2])
    ensures
      var r := LoadOf(DIFFERENCE, limit, [1, 2], mem);
      && r == Some(Made(3, DIFFERENCE + [LoadCall(1, 2)])) && Ordered(r.value.table)
      && Value(w, r.value.table, 3) == 0
    ensures Value(w, DIFFERENCE, 1) == 0 && Value(w, DIFFERENCE, 2) == 1
  {
    var ls := [1, 2];
    assert Shape(DIFFERENCE, ls, 0, 2) == All;
    assert Shape(DIFFERENCE, ls, 0, 1) == All;
    LoadPrepare(DIFFERENCE, 1, 2);
    var t := DIFFERENCE + [LoadCall(1, 2)];
    assert Bytes(w.input, (0, 0), 1) == 0;
    assert Bytes(w.input, (0, 0), 2) == 0;
    assert Value(w, t, 3) == 0;
    DifferenceValue(w);
    hide Prepare, Shape, Value, LabelBits, Pow2, Bytes, Standard;
  }

  /** Two input bytes. */
  const TWO_INPUTS: seq<LabelInfo> := [CONST_ENTRY, LabelInfo(0, 0, 0, 0, Input, 8), LabelInfo(0, 0, 1, 0, Input, 8)]

  /** A concrete zero in front of input byte 1 is taken for input byte 0: the entry of the constant label looks like it. */
  lemma {:induction false} ConstantIsLoaded(w: World, limit: nat)
    requires w.input((0, 0)) == 5 && w.input((0, 1)) == 0 && 3 < limit <= INITIALIZING
    ensures Loading(TWO_INPUTS, limit, [0, 2], [0, 0], 1) && SlotsOk(TWO_INPUTS, [0, 2]) && Ordered(TWO_INPUTS)
    ensures Shaped(TWO_INPUTS, [0, 2]) && Little(w, TWO_INPUTS, [0, 2], [0, 0], 0, 2) == 0
    ensures
      var r := LoadOf(TWO_INPUTS, limit, [0, 2], [0, 0]);
      r == Some(Made(3, TWO_INPUTS + [LoadCall(0, 2)])) && Ordered(r.value.table) && Value(w, r.value.table, 3) == 5
  {
    var ls, mem := [0, 2], [0, 0];
    TwoInputsLoad(limit);
    assert Shape(TWO_INPUTS, ls, 0, 2) == All;
    LoadPath(TWO_INPUTS, limit, ls, mem, 1);
    LoadPrepare(TWO_INPUTS, 0, 2);
    assert Scan(TWO_INPUTS, LoadCall(0, 2)).None?;
    LoadNode(w, TWO_INPUTS, 0, 2);
    hide Prepare, Shape, LabelBits, Loading, LoadOf;
    TwoInputsValue(w);
  }

  lemma {:induction false} TwoInputsLoad(limit: nat)
    requires 3 < limit <= INITIALIZING
    ensures Loading(TWO_INPUTS, limit, [0, 2], [0, 0], 1)
  {
    assert Ordered(TWO_INPUTS);
    assert ByteSlot(TWO_INPUTS, 0) && ByteSlot(TWO_INPUTS, 2);
  }

  lemma {:induction false} TwoInputsValue(w: World)
    requires w.input((0, 0)) == 5 && w.input((0, 1)) == 0
    ensures Ordered(TWO_INPUTS) && ByteSlots(TWO_INPUTS, [0, 2]) && Little(w, TWO_INPUTS, [0, 2], [0, 0], 0, 2) == 0
    ensures Bytes(w.input, (0, 0), 2) == 5
  {
    assert Bytes(w.input, (0, 0), 1) == 5;
    assert Little(w, TWO_INPUTS, [0, 2], [0, 0], 0, 0) == 0;
    assert Little(w, TWO_INPUTS, [0, 2], [0, 0], 0, 1) == 0;
  }

  lemma {:induction false} DifferenceValue(w: World)
    requires Standard(w.arith) && w.input((0, 0)) == 0
    ensures Ordered(DIFFERENCE) && Value(w, DIFFERENCE, 1) == 0 && Value(w, DIFFERENCE, 2) == 1
  {
    assert Value(w, DIFFERENCE, 1) == 0;
    Pow2Of8();
    assert Operand(w, DIFFERENCE, 2, false) == 1 && Operand(w, DIFFERENCE, 2, true) == 0;
    assert w.arith(Sub, 8, 1, 0) % Pow2(8) == Machine(Sub, 8, 1, 0) % Pow2(8);
    hide Pow2, Standard;
  }
}
