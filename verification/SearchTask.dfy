/** include/task.h, SearchTask::finalize: the indexes over the input bytes of all constraints of a task. */
module SearchTask {
  import opened Base
  import opened Constraints

  /** A constraint with its comparison; `memcmp` for Memcmp and MemcmpN. */
  datatype Item = Item(x: Arguments, memcmp: bool)

  /** What finalize records per constraint: arguments with global indexes, and runs of consecutive offsets. */
  datatype Meta = Meta(args: seq<Arg>, candidates: seq<(nat, nat)>)

  // ---- sorted offsets and their runs ----

  ghost predicate Increasing(ks: seq<nat>) {
    forall i, j :: 0 <= i < j < |ks| ==> ks[i] < ks[j]
  }

  lemma {:induction false} HasMinimum(s: set<nat>)
    requires s != {}
    ensures exists m :: IsMinimum(s, m)
    decreases |s|
  {
    var a :| a in s;
    var rest := s - {a};
    assert forall k :: k in s ==> k == a || k in rest;
    if rest == {} {
      assert IsMinimum(s, a);
    } else {
      HasMinimum(rest);
      var m :| IsMinimum(rest, m);
      assert IsMinimum(s, if a < m then a else m);
    }
  }

  predicate IsMinimum(s: set<nat>, m: nat) {
    m in s && forall k :: k in s ==> m <= k
  }

  function Minimum(s: set<nat>): (m: nat)
    requires s != {}
    ensures IsMinimum(s, m)
  {
    HasMinimum(s);
    var m :| IsMinimum(s, m);
    m
  }

  /** The keys of an ordered map in the order of iteration. */
  function Sorted(s: set<nat>): seq<nat>
    decreases |s|
  {
    if s == {} then [] else [Minimum(s)] + Sorted(s - {Minimum(s)})
  }

  lemma {:induction false} SortedIs(s: set<nat>)
    ensures Increasing(Sorted(s)) && SameElements(Sorted(s), s)
    decreases |s|
  {
    if s != {} {
      SortedIs(s - {Minimum(s)});
      Prepend(Minimum(s), Sorted(s - {Minimum(s)}), s);
    }
  }

  ghost predicate SameElements(ks: seq<nat>, s: set<nat>) {
    forall k :: k in ks <==> k in s
  }

  lemma {:induction false} Prepend(m: nat, rest: seq<nat>, s: set<nat>)
    requires IsMinimum(s, m) && Increasing(rest) && SameElements(rest, s - {m})
    ensures Increasing([m] + rest) && SameElements([m] + rest, s)
  {
    forall i | 0 <= i < |rest| ensures m < rest[i] { assert rest[i] in rest; }
    forall k ensures k in [m] + rest <==> k in s { assert k in rest <==> k in s - {m}; }
  }

  /** The maximal runs of consecutive numbers in a sorted sequence, as start and length. */
  function Runs(ks: seq<nat>): (r: seq<(nat, nat)>)
    ensures ks != [] <==> r != []
  {
    if ks == [] then []
    else
      var before, k := Runs(ks[..|ks| - 1]), ks[|ks| - 1];
      if before != [] && before[|before| - 1].0 + before[|before| - 1].1 == k then
        before[|before| - 1 := (before[|before| - 1].0, before[|before| - 1].1 + 1)]
      else before + [(k, 1)]
  }

  predicate InRun(run: (nat, nat), o: nat) {
    run.0 <= o < run.0 + run.1
  }

  ghost predicate Within(runs: seq<(nat, nat)>, o: nat) {
    exists j :: 0 <= j < |runs| && InRun(runs[j], o)
  }

  /** Runs are not empty and lie apart. */
  ghost predicate Apart(runs: seq<(nat, nat)>) {
    && (forall j :: 0 <= j < |runs| ==> runs[j].1 > 0)
    && forall i, j :: 0 <= i < j < |runs| ==> runs[i].0 + runs[i].1 < runs[j].0
  }

  ghost predicate Cover(runs: seq<(nat, nat)>, ks: seq<nat>) {
    forall o :: o in ks <==> Within(runs, o)
  }

  lemma {:induction false} OneMore(before: seq<(nat, nat)>, runs: seq<(nat, nat)>, last: (nat, nat), k: nat, o: nat)
    requires 0 < |runs| && last.0 + last.1 == k
    requires |before| == |runs| && before == runs[..|runs| - 1] + [last] && runs[|runs| - 1] == (last.0, last.1 + 1)
    ensures Within(runs, o) <==> Within(before, o) || o == k
  {
    var n := |runs| - 1;
    if Within(runs, o) {
      var j :| 0 <= j < |runs| && InRun(runs[j], o);
      if o != k { assert InRun(before[j], o); }
    }
    if Within(before, o) {
      var j :| 0 <= j < |before| && InRun(before[j], o);
      assert InRun(runs[j], o);
    }
    if o == k { assert InRun(runs[n], o); }
  }

  lemma {:induction false} NewRun(before: seq<(nat, nat)>, k: nat, o: nat)
    ensures Within(before + [(k, 1)], o) <==> Within(before, o) || o == k
  {
    var runs := before + [(k, 1)];
    if Within(runs, o) {
      var j :| 0 <= j < |runs| && InRun(runs[j], o);
      if o != k { assert InRun(before[j], o); }
    }
    if Within(before, o) {
      var j :| 0 <= j < |before| && InRun(before[j], o);
      assert InRun(runs[j], o);
    }
    if o == k { assert InRun(runs[|before|], o); }
  }

  lemma {:induction false} ApartNext(before: seq<(nat, nat)>, k: nat)
    requires Apart(before) && (before != [] ==> before[|before| - 1].0 + before[|before| - 1].1 <= k)
    ensures
      var n := |before| - 1;
      if before != [] && before[n].0 + before[n].1 == k then Apart(before[n := (before[n].0, before[n].1 + 1)])
      else Apart(before + [(k, 1)])
  {
  }

  /** The runs hold exactly the numbers of the sequence and are as long as can be. */
  lemma {:induction false} RunsAre(ks: seq<nat>)
    requires Increasing(ks)
    ensures Apart(Runs(ks)) && Cover(Runs(ks), ks)
    ensures ks != [] ==> Runs(ks)[|Runs(ks)| - 1].0 + Runs(ks)[|Runs(ks)| - 1].1 == ks[|ks| - 1] + 1
  {
    hide Within, Apart;
    if ks == [] {
      NoRuns();
    } else {
      var init, k := ks[..|ks| - 1], ks[|ks| - 1];
      RunsAre(init);
      var before, r := Runs(init), Runs(ks);
      ApartNext(before, k);
      forall o ensures o in ks <==> Within(r, o) {
        assert o in init <==> Within(before, o);
        assert o in ks <==> o in init || o == k;
        if |r| == |before| { OneMore(before, r, before[|before| - 1], k, o); } else { NewRun(before, k, o); }
      }
    }
  }

  lemma {:induction false} NoRuns()
    ensures Apart([]) && Cover([], [])
  {
  }

  // ---- who uses a byte ----

  predicate Uses(items: seq<Item>, i: nat, o: nat)
    requires i < |items|
  {
    o in items[i].x.localMap
  }

  /** The constraints before `n`, other than memcmp, that use the byte at `o`, in order. */
  function Users(items: seq<Item>, o: nat, n: nat): seq<nat>
    requires n <= |items|
  {
    if n == 0 then []
    else Users(items, o, n - 1) + if Uses(items, n - 1, o) && !items[n - 1].memcmp then [n - 1] else []
  }

  /** Each user once, in order, and no one else. */
  lemma {:induction false} UsersAre(items: seq<Item>, o: nat, n: nat)
    requires n <= |items|
    ensures Increasing(Users(items, o, n))
    ensures forall i :: i in Users(items, o, n) <==> 0 <= i < n && Uses(items, i, o) && !items[i].memcmp
  {
    if n > 0 {
      UsersAre(items, o, n - 1);
      var before := Users(items, o, n - 1);
      assert forall j :: 0 <= j < |before| ==> before[j] in before;
    }
  }

  // ---- finalize ----

  /** The global indexes: one slot per offset, and back. */
  ghost predicate IndexOk(symMap: map<nat, nat>, inputs: seq<(nat, nat)>) {
    && (forall o :: o in symMap ==> symMap[o] < |inputs| && inputs[symMap[o]].0 == o)
    && (forall g :: 0 <= g < |inputs| ==> inputs[g].0 in symMap && symMap[inputs[g].0] == g)
  }

  function ListAt(cmap: map<nat, seq<nat>>, g: nat): seq<nat> {
    if g in cmap then cmap[g] else []
  }

  /** Slot `g` lists the users among the first `n` constraints, and constraint `n` as well if its byte is in `done`. */
  ghost predicate ListOk(items: seq<Item>, inputs: seq<(nat, nat)>, cmap: map<nat, seq<nat>>, n: nat, done: set<nat>, g: nat)
    requires n <= |items| && g < |inputs|
  {
    ListAt(cmap, g) == Users(items, inputs[g].0, n)
      + if n < |items| && inputs[g].0 in done && !items[n].memcmp then [n] else []
  }

  ghost predicate ListsOk(items: seq<Item>, inputs: seq<(nat, nat)>, cmap: map<nat, seq<nat>>, n: nat, done: set<nat>)
    requires n <= |items|
  {
    && (forall g :: g in cmap ==> g < |inputs|)
    && forall g :: 0 <= g < |inputs| ==> ListOk(items, inputs, cmap, n, done, g)
  }

  /** The bytes of the first `n` constraints. */
  function AllOffsets(items: seq<Item>, n: nat): set<nat>
    requires n <= |items|
  {
    if n == 0 then {} else AllOffsets(items, n - 1) + items[n - 1].x.localMap.Keys
  }

  /** Symbolic arguments hold the slots of their bytes; constants are as they were. */
  ghost predicate ArgsOk(x: Arguments, args: seq<Arg>, symMap: map<nat, nat>, done: set<nat>) {
    && |args| == |x.args| && (forall j :: 0 <= j < |args| ==> args[j].symbolic == x.args[j].symbolic)
    && (forall o :: o in done ==>
          o in x.localMap && o in symMap && x.localMap[o] < |args| && args[x.localMap[o]] == Arg(true, symMap[o]))
    && (forall j :: 0 <= j < |args| && !x.args[j].symbolic ==> args[j] == x.args[j])
  }

  ghost predicate MetaOk(x: Arguments, m: Meta, symMap: map<nat, nat>) {
    && ArgsOk(x, m.args, symMap, x.localMap.Keys)
    && m.candidates == if x.localMap == map[] then [(0, 0)] else Runs(Sorted(x.localMap.Keys))
  }

  lemma {:induction false} NotUsed(items: seq<Item>, o: nat, n: nat)
    requires n <= |items| && o !in AllOffsets(items, n)
    ensures Users(items, o, n) == []
  {
    if n > 0 { NotUsed(items, o, n - 1); }
  }

  /** The value and the shape of slot `g` are those of constraint `k`, the first one that uses its byte. */
  ghost predicate TakenFrom(items: seq<Item>, inputs: seq<(nat, nat)>, shapes: map<nat, nat>, g: nat, k: nat)
    requires g < |inputs|
  {
    var o := inputs[g].0;
    && k < |items| && Uses(items, k, o) && (forall j :: 0 <= j < k ==> !Uses(items, j, o))
    && o in items[k].x.inputs && inputs[g].1 == items[k].x.inputs[o]
    && o in shapes && o in items[k].x.shapes && shapes[o] == items[k].x.shapes[o]
  }

  ghost predicate Taken(items: seq<Item>, inputs: seq<(nat, nat)>, shapes: map<nat, nat>, g: nat)
    requires g < |inputs|
  {
    exists k :: TakenFrom(items, inputs, shapes, g, k)
  }

  ghost predicate AllTaken(items: seq<Item>, inputs: seq<(nat, nat)>, shapes: map<nat, nat>) {
    forall g :: 0 <= g < |inputs| ==> Taken(items, inputs, shapes, g)
  }

  lemma {:induction false} NoUserBefore(items: seq<Item>, o: nat, n: nat)
    requires n <= |items| && o !in AllOffsets(items, n)
    ensures forall j :: 0 <= j < n ==> !Uses(items, j, o)
  {
    if n > 0 { NoUserBefore(items, o, n - 1); }
  }

  /** A new slot takes its value from the constraint at hand. */
  lemma {:induction false} TakeNew(items: seq<Item>, symMap: map<nat, nat>, inputs: seq<(nat, nat)>, shapes: map<nat, nat>,
                                   i: nat, o: nat)
    requires i < |items| && IndexOk(symMap, inputs) && AllTaken(items, inputs, shapes) && o !in symMap
    requires Uses(items, i, o) && o !in AllOffsets(items, i) && o in items[i].x.inputs && o in items[i].x.shapes
    ensures AllTaken(items, inputs + [(o, items[i].x.inputs[o])], shapes[o := items[i].x.shapes[o]])
  {
    var more, later := inputs + [(o, items[i].x.inputs[o])], shapes[o := items[i].x.shapes[o]];
    NoUserBefore(items, o, i);
    assert TakenFrom(items, more, later, |inputs|, i);
    forall g | 0 <= g < |more| ensures Taken(items, more, later, g) {
      if g < |inputs| {
        assert Taken(items, inputs, shapes, g);
        var k :| TakenFrom(items, inputs, shapes, g, k);
        assert TakenFrom(items, more, later, g, k);
      }
    }
  }

  class Task {
    const items: seq<Item>
    var symMap: map<nat, nat>
    var inputs: seq<(nat, nat)>             // offset and value
    var shapes: map<nat, nat>
    var cmap: map<nat, seq<nat>>
    var metas: seq<Meta>
    var maxConst: nat

    constructor (items: seq<Item>)
      ensures this.items == items && symMap == map[] && inputs == [] && cmap == map[] && metas == [] && maxConst == 0
      ensures shapes == map[]
    {
      this.items := items;
      symMap, inputs, shapes, cmap, metas, maxConst := map[], [], map[], map[], [], 0;
    }

    /** The slot of a byte, a new one if it has none. */
    method Slot(x: Arguments, offset: nat) returns (g: nat)
      requires IndexOk(symMap, inputs) && offset in x.inputs && offset in x.shapes
      modifies this`symMap, this`inputs, this`shapes
      ensures IndexOk(symMap, inputs) && offset in symMap && symMap[offset] == g
      ensures if offset in old(symMap) then symMap == old(symMap) && inputs == old(inputs) && shapes == old(shapes)
        else symMap == old(symMap)[offset := |old(inputs)|] && inputs == old(inputs) + [(offset, x.inputs[offset])]
             && shapes == old(shapes)[offset := x.shapes[offset]]
    {
      if offset in symMap { return symMap[offset]; }
      g := |inputs|;
      symMap := symMap[offset := g];
      inputs := inputs + [(offset, x.inputs[offset])];
      shapes := shapes[offset := x.shapes[offset]];
    }

    /** Records that constraint `i` uses slot `g`. */
    method Record(i: nat, g: nat)
      requires i < |items|
      modifies this`cmap
      ensures cmap == if items[i].memcmp then old(cmap) else old(cmap)[g := ListAt(old(cmap), g) + [i]]
    {
      if !items[i].memcmp {
        if g in cmap { cmap := cmap[g := cmap[g] + [i]]; } else { assert [] + [i] == [i]; cmap := cmap[g := [i]]; }
      }
    }

    /** The state after the first `i` constraints and the bytes `done` of the next one. */
    ghost predicate Indexed(i: nat, done: set<nat>)
      reads this`symMap, this`inputs, this`cmap, this`shapes
    {
      && shapes.Keys == symMap.Keys && AllTaken(items, inputs, shapes)
      && i <= |items| && IndexOk(symMap, inputs) && symMap.Keys == AllOffsets(items, i) + done
      && ListsOk(items, inputs, cmap, i, done)
    }

    /** One byte of constraint `i`. */
    method AddByte(i: nat, offset: nat, ghost done: set<nat>) returns (g: nat)
      requires i < |items| && Indexed(i, done) && ArgumentsOk(items[i].x)
      requires offset in items[i].x.localMap && offset !in done
      modifies this`symMap, this`inputs, this`shapes, this`cmap
      ensures Indexed(i, done + {offset}) && offset in symMap && symMap[offset] == g
      ensures Keeps(old(symMap), symMap)
    {
      hide AllTaken, Users, Uses, ListsOk, IndexOk, ArgumentsOk, Keeps, AllOffsets;
      ghost var was, before, slots := cmap, inputs, symMap;
      ByteIsUsed(items, i, offset);
      if offset !in symMap {
        NotUsed(items, offset, i);
        TakeNew(items, symMap, inputs, shapes, i, offset);
      }
      g := Slot(items[i].x, offset);
      Record(i, g);
      KeepsSlot(slots, symMap, offset);
      OneSlot(symMap, inputs, offset);
      if offset in slots { SlotIsOld(slots, before, offset); }
      ListsGrow(items, before, inputs, was, cmap, i, done, offset, g);
    }

    lemma {:induction false} NextIndexed(i: nat, done: set<nat>)
      requires i < |items| && Indexed(i, done) && done == items[i].x.localMap.Keys
      ensures Indexed(i + 1, {})
    {
      NextList(items, inputs, cmap, i, done);
    }

    /** The round of finalize's loop for constraint `i`. */
    method AddConstraint(i: nat)
      requires i < |items| && |metas| == i && Indexed(i, {}) && ArgumentsOk(items[i].x)
      modifies this`symMap, this`inputs, this`shapes, this`cmap, this`metas, this`maxConst
      ensures Indexed(i + 1, {}) && Keeps(old(symMap), symMap)
      ensures |metas| == i + 1 && old(metas) <= metas && MetaOk(items[i].x, metas[i], symMap)
      ensures maxConst == if old(maxConst) < items[i].x.constNum then items[i].x.constNum else old(maxConst)
    {
      hide *;
      var x := items[i].x;
      var ks := Sorted(x.localMap.Keys);
      var args, candidates, last, size := x.args, [], 0, 0;
      var j := 0;
      ghost var done: set<nat> := {};
      Started(x, ks, symMap);
      while j < |ks|
        invariant 0 <= j <= |ks| && DoneOk(ks, j, done)
        invariant Indexed(i, done) && ArgsOk(x, args, symMap, done) && metas == old(metas)
        invariant Keeps(old(symMap), symMap) && maxConst == old(maxConst)
        invariant Pending(ks[..j], candidates, last, size)
      {
        var offset := ks[j];
        DoneNext(ks, x.localMap.Keys, j, done);
        ghost var before := symMap;
        var g := AddByte(i, offset, done);
        KeepsTrans(old(symMap), before, symMap);
        ArgsGrow(x, args, before, symMap, done, offset);
        args := args[x.localMap[offset] := Arg(true, g)];
        PendingNext(ks, j, candidates, last, size);
        if j > 0 && last + 1 != offset {
          candidates := candidates + [(last + 1 - size, size)];
          size := 0;
        }
        last, size := offset, size + 1;
        done := done + {offset};
        j := j + 1;
      }
      Finished(x, ks, args, symMap, done, candidates, last, size);
      NextIndexed(i, done);
      candidates := candidates + [(if j > 0 then last + 1 - size else 0, size)];
      if maxConst < x.constNum { maxConst := x.constNum; }
      metas := metas + [Meta(args, candidates)];
    }

    /** Slots without users get an empty list. */
    method FillGaps()
      requires Indexed(|items|, {})
      modifies this`cmap
      ensures Indexed(|items|, {}) && forall g :: g in cmap <==> 0 <= g < |inputs|
    {
      var n := |items|;
      var g := 0;
      while g < |inputs|
        invariant 0 <= g <= |inputs| && Indexed(n, {}) && forall k :: 0 <= k < g ==> k in cmap
      {
        if g !in cmap {
          GapFilled(items, inputs, cmap, n, g);
          cmap := cmap[g := []];
        }
        g := g + 1;
      }
      assert ListsOk(items, inputs, cmap, n, {});
    }

    /** finalize, for constraints without atoi. */
    method Finalize()
      requires symMap == map[] && inputs == [] && cmap == map[] && metas == [] && maxConst == 0 && shapes == map[]
      requires forall i :: 0 <= i < |items| ==> ArgumentsOk(items[i].x)
      modifies this
      ensures IndexOk(symMap, inputs) && symMap.Keys == AllOffsets(items, |items|) == shapes.Keys
      ensures AllTaken(items, inputs, shapes)
      ensures forall g :: g in cmap <==> 0 <= g < |inputs|
      ensures forall g :: 0 <= g < |inputs| ==> cmap[g] == Users(items, inputs[g].0, |items|)
      ensures |metas| == |items| && forall i :: 0 <= i < |items| ==> MetaOk(items[i].x, metas[i], symMap)
      ensures forall i :: 0 <= i < |items| ==> items[i].x.constNum <= maxConst
      ensures maxConst == 0 || exists i :: 0 <= i < |items| && items[i].x.constNum == maxConst
    {
      hide *;
      Empty();
      var i := 0;
      while i < |items|
        invariant 0 <= i <= |items| && Indexed(i, {}) && MetasOk(items, metas, symMap, i) && MaxOk(items, maxConst, i)
      {
        ghost var before, was, max := symMap, metas, maxConst;
        MetasAre(items, metas, symMap, i);
        AddConstraint(i);
        MetasGrow(items, was, metas, before, symMap, i);
        MaxGrows(items, max, maxConst, i);
        i := i + 1;
      }
      FillGaps();
      Complete();
    }

    lemma {:induction false} Empty()
      requires symMap == map[] && inputs == [] && cmap == map[] && metas == [] && maxConst == 0 && shapes == map[]
      ensures Indexed(0, {}) && MetasOk(items, metas, symMap, 0) && MaxOk(items, maxConst, 0)
    {
    }

    lemma {:induction false} Complete()
      requires Indexed(|items|, {}) && MetasOk(items, metas, symMap, |items|) && MaxOk(items, maxConst, |items|)
      requires forall g :: g in cmap <==> 0 <= g < |inputs|
      ensures IndexOk(symMap, inputs) && symMap.Keys == AllOffsets(items, |items|) == shapes.Keys
      ensures AllTaken(items, inputs, shapes)
      ensures forall g :: 0 <= g < |inputs| ==> cmap[g] == Users(items, inputs[g].0, |items|)
      ensures |metas| == |items| && forall i :: 0 <= i < |items| ==> MetaOk(items[i].x, metas[i], symMap)
      ensures forall i :: 0 <= i < |items| ==> items[i].x.constNum <= maxConst
      ensures maxConst == 0 || exists i :: 0 <= i < |items| && items[i].x.constNum == maxConst
    {
      forall g | 0 <= g < |inputs| ensures cmap[g] == Users(items, inputs[g].0, |items|) {
        assert ListOk(items, inputs, cmap, |items|, {}, g);
      }
    }
  }

  ghost predicate MetasOk(items: seq<Item>, metas: seq<Meta>, symMap: map<nat, nat>, n: nat) {
    |metas| == n <= |items| && forall k :: 0 <= k < n ==> MetaOk(items[k].x, metas[k], symMap)
  }

  lemma {:induction false} MetasAre(items: seq<Item>, metas: seq<Meta>, symMap: map<nat, nat>, n: nat)
    requires MetasOk(items, metas, symMap, n)
    ensures |metas| == n
  {
  }

  lemma {:induction false} MetasGrow(items: seq<Item>, was: seq<Meta>, metas: seq<Meta>, before: map<nat, nat>,
                                     symMap: map<nat, nat>, n: nat)
    requires MetasOk(items, was, before, n) && n < |items| && |metas| == n + 1 && was <= metas && Keeps(before, symMap)
    requires MetaOk(items[n].x, metas[n], symMap)
    ensures MetasOk(items, metas, symMap, n + 1)
  {
    forall k | 0 <= k < n ensures MetaOk(items[k].x, metas[k], symMap) {
      assert metas[k] == was[k];
      MetaGrows(items[k].x, metas[k], before, symMap);
    }
  }

  ghost predicate MaxOk(items: seq<Item>, max: nat, n: nat) {
    && n <= |items| && (forall k :: 0 <= k < n ==> items[k].x.constNum <= max)
    && (max == 0 || exists k :: 0 <= k < n && items[k].x.constNum == max)
  }

  lemma {:induction false} MaxGrows(items: seq<Item>, was: nat, max: nat, n: nat)
    requires MaxOk(items, was, n) && n < |items|
    requires max == if was < items[n].x.constNum then items[n].x.constNum else was
    ensures MaxOk(items, max, n + 1)
  {
  }

  lemma {:induction false} GapFilled(items: seq<Item>, inputs: seq<(nat, nat)>, cmap: map<nat, seq<nat>>, n: nat, g: nat)
    requires n <= |items| && g < |inputs| && ListsOk(items, inputs, cmap, n, {}) && g !in cmap
    ensures ListsOk(items, inputs, cmap[g := []], n, {})
  {
    var none: set<nat>, filled := {}, cmap[g := []];
    forall k | 0 <= k < |inputs| ensures ListOk(items, inputs, filled, n, none, k) {
      assert ListOk(items, inputs, cmap, n, none, k);
    }
  }

  lemma {:induction false} MetaGrows(x: Arguments, m: Meta, before: map<nat, nat>, symMap: map<nat, nat>)
    requires MetaOk(x, m, before) && Keeps(before, symMap)
    ensures MetaOk(x, m, symMap)
  {
  }

  ghost predicate Keeps(was: map<nat, nat>, now: map<nat, nat>) {
    forall o :: o in was ==> o in now && now[o] == was[o]
  }

  lemma {:induction false} KeepsSlot(was: map<nat, nat>, now: map<nat, nat>, offset: nat)
    requires now == was || (offset !in was && offset in now && now == was[offset := now[offset]])
    ensures Keeps(was, now)
  {
  }

  lemma {:induction false} OneSlot(symMap: map<nat, nat>, inputs: seq<(nat, nat)>, offset: nat)
    requires IndexOk(symMap, inputs) && offset in symMap
    ensures symMap[offset] < |inputs| && forall k :: 0 <= k < |inputs| ==> (inputs[k].0 == offset <==> k == symMap[offset])
  {
  }

  lemma {:induction false} SlotIsOld(symMap: map<nat, nat>, inputs: seq<(nat, nat)>, offset: nat)
    requires IndexOk(symMap, inputs) && offset in symMap
    ensures symMap[offset] < |inputs|
  {
  }

  lemma {:induction false} ByteIsUsed(items: seq<Item>, i: nat, offset: nat)
    requires i < |items| && ArgumentsOk(items[i].x) && offset in items[i].x.localMap
    ensures offset in items[i].x.inputs && offset in items[i].x.shapes && Uses(items, i, offset)
  {
  }

  lemma {:induction false} KeepsTrans(a: map<nat, nat>, b: map<nat, nat>, c: map<nat, nat>)
    requires Keeps(a, b) && Keeps(b, c)
    ensures Keeps(a, c)
  {
  }

  /** The bytes handled so far are the first `j` of the sorted ones. */
  ghost predicate DoneOk(ks: seq<nat>, j: nat, done: set<nat>) {
    j <= |ks| && forall o :: o in done <==> o in ks[..j]
  }

  lemma {:induction false} DoneNext(ks: seq<nat>, s: set<nat>, j: nat, done: set<nat>)
    requires ks == Sorted(s) && j < |ks| && DoneOk(ks, j, done)
    ensures Increasing(ks) && ks[j] in s && ks[j] !in done && DoneOk(ks, j + 1, done + {ks[j]})
  {
    SortedIs(s);
    assert ks[j] in ks;
    assert ks[..j + 1] == ks[..j] + [ks[j]];
  }

  lemma {:induction false} Started(x: Arguments, ks: seq<nat>, symMap: map<nat, nat>)
    requires ArgumentsOk(x)
    ensures DoneOk(ks, 0, {}) && ArgsOk(x, x.args, symMap, {}) && Keeps(symMap, symMap) && Pending(ks[..0], [], 0, 0)
  {
  }

  lemma {:induction false} Finished(x: Arguments, ks: seq<nat>, args: seq<Arg>, symMap: map<nat, nat>, done: set<nat>,
                                    candidates: seq<(nat, nat)>, last: nat, size: nat)
    requires ks == Sorted(x.localMap.Keys) && DoneOk(ks, |ks|, done) && ArgsOk(x, args, symMap, done)
    requires Pending(ks[..|ks|], candidates, last, size)
    ensures done == x.localMap.Keys && (|ks| > 0 ==> size <= last + 1)
    ensures MetaOk(x, Meta(args, candidates + [(if |ks| > 0 then last + 1 - size else 0, size)]), symMap)
  {
    SortedIs(x.localMap.Keys);
    assert ks[..|ks|] == ks;
    if ks == [] {
      assert x.localMap.Keys == {};
      assert x.localMap == map[];
      assert [] + [(0, 0)] == [(0, 0)];
    }
  }

  /** The run that is being collected, and those before it. */
  ghost predicate Pending(ks: seq<nat>, candidates: seq<(nat, nat)>, last: nat, size: nat) {
    if ks == [] then candidates == [] && size == 0
    else last == ks[|ks| - 1] && 0 < size <= last + 1 && candidates + [(last + 1 - size, size)] == Runs(ks)
  }

  lemma {:induction false} PendingNext(ks: seq<nat>, j: nat, candidates: seq<(nat, nat)>, last: nat, size: nat)
    requires j < |ks| && Increasing(ks) && Pending(ks[..j], candidates, last, size)
    ensures
      if j > 0 && last + 1 != ks[j] then
        size <= last + 1 && Pending(ks[..j + 1], candidates + [(last + 1 - size, size)], ks[j], 1)
      else Pending(ks[..j + 1], candidates, ks[j], size + 1)
  {
    assert ks[..j + 1][..j] == ks[..j];
  }

  lemma {:induction false} ListsGrow(items: seq<Item>, before: seq<(nat, nat)>, inputs: seq<(nat, nat)>,
                                     was: map<nat, seq<nat>>, cmap: map<nat, seq<nat>>, i: nat, done: set<nat>,
                                     offset: nat, g: nat)
    requires i < |items| && ListsOk(items, before, was, i, done) && offset !in done
    requires before <= inputs && g < |inputs| <= |before| + 1 && (|inputs| > |before| ==> g == |before|)
    requires forall k :: 0 <= k < |inputs| ==> (inputs[k].0 == offset <==> k == g)
    requires g == |before| ==> Users(items, offset, i) == []
    requires cmap == if items[i].memcmp then was else was[g := ListAt(was, g) + [i]]
    ensures ListsOk(items, inputs, cmap, i, done + {offset})
  {
    forall k | 0 <= k < |inputs| ensures ListOk(items, inputs, cmap, i, done + {offset}, k) {
      if k < |before| { assert ListOk(items, before, was, i, done, k) && inputs[k] == before[k]; }
    }
  }

  lemma {:induction false} NextList(items: seq<Item>, inputs: seq<(nat, nat)>, cmap: map<nat, seq<nat>>, i: nat, done: set<nat>)
    requires i < |items| && ListsOk(items, inputs, cmap, i, done) && done == items[i].x.localMap.Keys
    ensures ListsOk(items, inputs, cmap, i + 1, {})
  {
    var n, none: set<nat> := i + 1, {};
    forall g | 0 <= g < |inputs| ensures ListOk(items, inputs, cmap, n, none, g) {
      assert ListOk(items, inputs, cmap, i, done, g);
    }
  }

  lemma {:induction false} ArgsGrow(x: Arguments, args: seq<Arg>, before: map<nat, nat>, symMap: map<nat, nat>,
                                    done: set<nat>, offset: nat)
    requires ArgumentsOk(x) && ArgsOk(x, args, before, done) && offset in x.localMap && offset !in done && offset in symMap
    requires Keeps(before, symMap)
    ensures x.localMap[offset] < |args|
    ensures ArgsOk(x, args[x.localMap[offset] := Arg(true, symMap[offset])], symMap, done + {offset})
  {
    var l := x.localMap[offset];
    assert x.args[l] == Arg(true, 0);
    forall o | o in done ensures x.localMap[o] != l {
      assert StandsFor(x, x.localMap[o], o) && StandsFor(x, l, offset);
    }
  }

  // ---- what the solvers rely on ----

  /** Slots have distinct offsets. */
  lemma {:induction false} SlotsDistinct(symMap: map<nat, nat>, inputs: seq<(nat, nat)>, g: nat, h: nat)
    requires IndexOk(symMap, inputs) && g < |inputs| && h < |inputs| && inputs[g].0 == inputs[h].0
    ensures g == h
  {
    assert symMap[inputs[g].0] == g;
  }

  /** Every symbolic argument points at the slot of its own byte. */
  lemma {:induction false} PointsHome(x: Arguments, m: Meta, symMap: map<nat, nat>, inputs: seq<(nat, nat)>, j: nat)
    requires ArgumentsOk(x) && MetaOk(x, m, symMap) && IndexOk(symMap, inputs) && j < |x.args| && x.args[j].symbolic
    ensures j < |m.args| && m.args[j].value < |inputs| && StandsFor(x, j, inputs[m.args[j].value].0)
  {
    assert Covered(x);
    var o :| StandsFor(x, j, o);
    assert o in x.localMap.Keys;
  }
}
