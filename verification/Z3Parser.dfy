/** solvers/z3-ts.cpp: the Z3 parser.  Conditions, indices and side constraints of one run become solving tasks,
    each holding only the slice of the path that shares input bytes with its goal. */
module Z3Parser {
  import opened Base
  import opened Labels
  import opened Z3Expr
  import opened Z3Serialize
  import opened Slicing
  import V = LabelValues
  import M = Z3Meaning
  import T = Z3Sorts

  /** The result of a parser call: 0, -1, or an exception that is not caught. */
  datatype Outcome = Success | Failure | Thrown

  type Task = seq<Expr>

  /** An answer of the SMT solver. */
  datatype Answer = Sat(model: Model) | Unsat | Unknown

  datatype Status =
    | InvalidTask | OptSat | OptUnsat | OptTimeout | NestedSat | OptSatNestedUnsat | OptSatNestedTimeout | UnknownError

  // ---- when a label keeps failing ----

  lemma {:induction false} TranslateIgnoresDeps(table: seq<LabelInfo>, m: Contents, c: Caches, d: Caches, l: nat)
    requires Ordered(table) && 0 < l < |table| && c.exprs == d.exprs
    ensures Translate(table, m, c, l) == Translate(table, m, d, l)
  {
    hide Fit, Combine, Built, LoadExpr, ZextExpr, OperandSize;
    var info := table[l];
    assert forall k :: Cached(c, k) == Cached(d, k);
    assert Operand(table, c, info, false) == Operand(table, d, info, false);
    assert Operand(table, c, info, true) == Operand(table, d, info, true);
  }

  lemma {:induction false} TranslateOtherContent(table: seq<LabelInfo>, m: Contents, c: Caches, l: nat, k: nat, buf: seq<nat>)
    requires Ordered(table) && 0 < l < |table| && k != l
    ensures Translate(table, m[k := buf], c, l) == Translate(table, m, c, l)
    ensures Deps(table, m[k := buf], c, l) == Deps(table, m, c, l)
  {
  }

  /** Dependencies come from the entries of labels that have expressions. */
  lemma {:induction false} DepsIgnoreLeftovers(table: seq<LabelInfo>, m: Contents, c: Caches, d: Caches, l: nat)
    requires Ordered(table) && 0 < l < |table| && c.exprs == d.exprs && |c.exprs| <= |c.deps| && c.deps <= d.deps
    ensures Deps(table, m, c, l) == Deps(table, m, d, l)
  {
    var info := table[l];
    assert forall k :: Cached(c, k) == Cached(d, k) && CachedDeps(c, k) == CachedDeps(d, k);
    assert Operand(table, c, info, false) == Operand(table, d, info, false);
    assert Operand(table, c, info, true) == Operand(table, d, info, true);
  }

  /** A longer dependency cache is harmless while the next label keeps failing.  While content may still come for that
      label, its entry there is that of the first failure. */
  ghost predicate Blocked(table: seq<LabelInfo>, m: Contents, c: Caches)
    requires Ordered(table) && 0 < |c.exprs| < |c.deps|
  {
    var l := |c.exprs|;
    l < |table| && Translate(table, m, c, l).None? && (l !in m ==> c.deps[l] == Deps(table, m, c, l))
  }

  lemma {:induction false} BlockedRound(table: seq<LabelInfo>, m: Contents, c: Caches)
    requires Ordered(table) && 0 < |c.exprs| < |table| && |c.exprs| <= |c.deps|
    requires Translate(table, m, c, |c.exprs|).None? && (|c.deps| > |c.exprs| ==> Blocked(table, m, c))
    ensures Blocked(table, m, Round(table, m, c))
  {
    hide Translate, Deps;
    var l, d := |c.exprs|, Round(table, m, c);
    TranslateIgnoresDeps(table, m, c, d, l);
    DepsIgnoreLeftovers(table, m, c, d, l);
  }

  /** When the label no longer fails, its expression is cached beside the dependencies of the failure. */
  lemma {:induction false} LateRound(table: seq<LabelInfo>, m: Contents, c: Caches)
    requires Ordered(table) && 0 < |c.exprs| < |table| && CachesOk(c) && |c.deps| > |c.exprs|
    ensures CachesOk(Round(table, m, c)) <==>
      var entry := Translate(table, m, c, |c.exprs|);
      entry.None? || entry.value.None? || Deps(table, m, c, |c.exprs|) == c.deps[|c.exprs|]
  {
    var l, d := |c.exprs|, Round(table, m, c);
    RoundOk(table, m, c);
    if Translate(table, m, c, l).Some? {
      if Translate(table, m, c, l).value.Some? { TranslateReads(table, m, c, l); }
      hide Translate, Deps;
      if CachesOk(d) { assert EntryOk(d, l); }
      forall k | 0 <= k < l ensures EntryOk(d, k) { assert EntryOk(c, k); }
    }
  }

  /** Only a memcmp with a constant buffer can fail for want of content, and then no dependency is recorded for it. */
  lemma {:induction false} LateContent(table: seq<LabelInfo>, m: Contents, c: Caches, l: nat, buf: seq<nat>)
    requires Ordered(table) && 0 < l < |table| && l !in m && Translate(table, m, c, l).None?
    ensures Translate(table, m[l := buf], c, l).Some? ==>
      && table[l].op == Fmemcmp && table[l].l1 == 0 && Translate(table, m[l := buf], c, l).value.Some?
      && Deps(table, m, c, l) == {} && Deps(table, m[l := buf], c, l) == CachedDeps(c, table[l].l2)
  {
  }

  /** So content that arrives late keeps the dependencies exact if and only if it leads to no expression or the bytes
      compared with it depend on no input. */
  lemma {:induction false} LateContentIsExact(table: seq<LabelInfo>, m: Contents, c: Caches, buf: seq<nat>)
    requires Ordered(table) && 0 < |c.exprs| == |c.deps| < |table| && CachesOk(c)
    requires |c.exprs| !in m && Translate(table, m, c, |c.exprs|).None?
    ensures
      var l := |c.exprs|;
      var failed := Round(table, m, c);
      CachesOk(Round(table, m[l := buf], failed)) <==>
        Translate(table, m[l := buf], failed, l).None? || CachedDeps(c, table[l].l2) == {}
  {
    var l, failed := |c.exprs|, Round(table, m, c);
    RoundOk(table, m, c);
    BlockedRound(table, m, c);
    hide Translate, Deps;
    LateRound(table, m[l := buf], failed);
    LateContent(table, m, failed, l, buf);
    assert CachedDeps(failed, table[l].l2) == CachedDeps(c, table[l].l2);
  }

  /** Even then the damage is only put off: from now on every set is filed one label too high.  After one failure, and
      content that leads to an expression without dependencies, the next label is exact if and only if it has no
      expression or depends on no input either. */
  lemma {:induction false} LateContentShifts(table: seq<LabelInfo>, m: Contents, c: Caches, buf: seq<nat>)
    requires Ordered(table) && 0 < |c.exprs| == |c.deps| < |table| - 1 && CachesOk(c)
    requires |c.exprs| !in m && Translate(table, m, c, |c.exprs|).None?
    requires
      var l := |c.exprs|;
      Translate(table, m[l := buf], Round(table, m, c), l).Some? && CachedDeps(c, table[l].l2) == {}
    ensures
      var l, late := |c.exprs|, m[|c.exprs| := buf];
      var done := Round(table, late, Round(table, m, c));
      && CachesOk(done) && |done.exprs| == l + 1 < |done.deps|
      && (CachesOk(Round(table, late, done)) <==>
            var entry := Translate(table, late, done, l + 1);
            entry.None? || entry.value.None? || Deps(table, late, done, l + 1) == {})
  {
    var l, late, failed := |c.exprs|, m[|c.exprs| := buf], Round(table, m, c);
    RoundOk(table, m, c);
    BlockedRound(table, m, c);
    LateContentIsExact(table, m, c, buf);
    hide Translate, Deps, CachesOk;
    LateContent(table, m, failed, l, buf);
    assert CachedDeps(failed, table[l].l2) == CachedDeps(c, table[l].l2);
    var done := Round(table, late, failed);
    assert done.deps[l + 1] == Deps(table, late, failed, l) == {};
    LateRound(table, late, done);
  }

  // ---- what cached expressions stand for ----

  /** Whatever the input and the meaning of the operators, every cached expression has the value of its label. */
  ghost predicate AllAgree(table: seq<LabelInfo>, m: Contents, c: Caches)
    requires Ordered(table)
  {
    forall w: V.World :: Fair(w, table, m) ==> M.AllMean(w, table, c)
  }

  /** The compiler's sizes, a proper exclusive or, and buffers as they were recorded. */
  ghost predicate Fair(w: V.World, table: seq<LabelInfo>, m: Contents)
    requires Ordered(table)
  {
    && M.OneBitXor(w.arith) && M.ContentsAgree(w, table, m)
    && forall l :: 0 < l < |table| ==> M.Typed(table, l)
  }

  lemma {:induction false} AgreeRound(table: seq<LabelInfo>, m: Contents, c: Caches)
    requires Ordered(table) && 0 < |c.exprs| < |table| && AllAgree(table, m, c)
    ensures AllAgree(table, m, Round(table, m, c))
  {
    hide Round, M.AllMean, M.OneBitXor, M.ContentsAgree, M.Typed;
    forall w: V.World | Fair(w, table, m)
      ensures M.AllMean(w, table, Round(table, m, c))
    {
      assert M.Typed(table, |c.exprs|);
      M.RoundMeans(w, table, m, c);
    }
  }

  lemma {:induction false} AgreeContent(table: seq<LabelInfo>, m: Contents, c: Caches, k: nat, buf: seq<nat>)
    requires Ordered(table) && AllAgree(table, m, c) && k !in m
    ensures AllAgree(table, m[k := buf], c)
  {
    hide M.AllMean, M.OneBitXor, M.Typed;
    forall w: V.World | Fair(w, table, m[k := buf])
      ensures M.AllMean(w, table, c)
    {
      FewerContents(w, table, m, k, buf);
      assert Fair(w, table, m);
    }
  }

  lemma {:induction false} FewerContents(w: V.World, table: seq<LabelInfo>, m: Contents, k: nat, buf: seq<nat>)
    requires M.ContentsAgree(w, table, m[k := buf]) && k !in m
    ensures M.ContentsAgree(w, table, m)
  {
    forall l | l in m && l < |table|
      ensures w.content(l) == LittleEndian(m[l], V.LoadSize(table[l].size))
    {
      assert l in m[k := buf] && m[k := buf][l] == m[l];
    }
  }

  lemma {:induction false} LabelMeans(w: V.World, table: seq<LabelInfo>, m: Contents, c: Caches)
    requires Ordered(table) && AllAgree(table, m, c) && Fair(w, table, m)
    ensures |c.exprs| <= |table|
    ensures forall l :: 0 <= l < |c.exprs| && c.exprs[l].Some? ==>
      Eval(w.arith, w.input, c.exprs[l].value) == V.Value(w, table, l)
  {
    assert M.AllMean(w, table, c);
  }

  /** The label with expression `x` is said to have a value. */
  predicate Fixes(e: Expr, x: Expr) {
    e.Equals? && e.x == x && (e.y.BoolVal? || e.y.BvVal?)
  }

  /** A constraint that is true on both inputs gives its label the same value on both. */
  lemma {:induction false} FixedValue(m: ArithMeaning, one: Input, two: Input, e: Expr, x: Expr)
    requires Fixes(e, x) && True(m, one, e) && True(m, two, e)
    ensures Eval(m, one, x) == Eval(m, two, x)
  {
    assert Eval(m, one, e.y) == Eval(m, two, e.y);
    assert Eval(m, one, e) == B(Eval(m, one, x) == Eval(m, one, e.y));
    assert Eval(m, two, e) == B(Eval(m, two, x) == Eval(m, two, e.y));
  }

  /** A condition that differs from the recorded outcome has the other one. */
  lemma {:induction false} FlippedValue(m: ArithMeaning, input: Input, x: Expr, result: bool)
    requires IsBool(x) && True(m, input, NotEquals(x, BoolVal(result)))
    ensures Eval(m, input, x) == B(!result)
  {
    M.EvalRange(m, input, x);
    Pow2Small();
    assert Eval(m, input, BoolVal(result)) == B(result);
    assert Eval(m, input, NotEquals(x, BoolVal(result))) == B(Eval(m, input, x) != B(result));
  }

  /** The labels 0 .. 2: a raw input byte and its comparison with a constant buffer. */
  const EXAMPLE: seq<LabelInfo> := [
    LabelInfo(0, 0, 0, 0, Input, 8),
    LabelInfo(0, 0, 0, 0, Input, 8),
    LabelInfo(0, 1, 0, 0, Fmemcmp, 1)]

  /** Why content that arrives after its label has failed is not harmless: the label is then cached with the empty
      dependency set left over from the failure although its expression reads an input byte. */
  lemma {:induction false} LateContentLosesDependencies()
    ensures
      var start := Caches([None], [{}]);
      var late := map[2 := [65]];
      var one := Round(EXAMPLE, map[], start);
      var failed := Round(EXAMPLE, map[], one);
      var end := Round(EXAMPLE, late, failed);
      && CachesOk(failed) && |failed.deps| == |failed.exprs| + 1
      && |end.exprs| == 3 && end.exprs[2].Some? && Reads(end.exprs[2].value) == {(0, 0)} && end.deps[2] == {}
  {
    var start := Caches([None], [{}]);
    assert EntryOk(start, 0);
    assert CachesOk(start);
    RoundOk(EXAMPLE, map[], start);
    var one := Round(EXAMPLE, map[], start);
    assert one == Caches([None, Some(InputByte((0, 0)))], [{}, {(0, 0)}]);
    RoundOk(EXAMPLE, map[], one);
    var failed := Round(EXAMPLE, map[], one);
    assert failed == Caches(one.exprs, [{}, {(0, 0)}, {}]);
    assert LittleEndian([65], 1) == 65 by { assert LittleEndian([65], 0) == 0; assert Pow2(0) == 1; }
    var e := Differs(BvVal(65, 8), InputByte((0, 0)));
    assert SortOf(BvVal(65, 8)) == Some(BvSort(8)) == SortOf(InputByte((0, 0)));
    assert Translate(EXAMPLE, map[2 := [65]], failed, 2) == Some(Some(e));
    assert Reads(BvVal(65, 8)) == {} && Reads(InputByte((0, 0))) == {(0, 0)};
  }

  // ---- tasks ----

  /** What is handed out for `goal` over the closed set `d`: the goal and every saved constraint of these bytes. */
  ghost predicate SliceTask(store: Store, task: Task, goal: Expr, d: set<Offset>) {
    && task != [] && task[0] == goal
    && forall e :: e in task[1..] <==> e in Nested(store, d)
  }

  /** The slice of the bytes connected with those of `goal`. */
  ghost predicate IsSlice(store: Store, task: Task, goal: Expr) {
    exists d :: IsClosure(store, Reads(goal), d) && SliceTask(store, task, goal, d)
  }

  // ---- the parser ----

  class Parser {
    const table: seq<LabelInfo>
    const sizes: seq<nat>                      // the length of every input
    var exprs: seq<Option<Expr>>               // expr_cache_
    var deps: seq<set<Offset>>                 // deps_cache_
    var contents: Contents                     // memcmp_cache_
    var store: Store                           // branch_deps_
    var tasks: map<nat, Task>                  // tasks_
    var nextId: nat                            // prev_task_id_
    ghost var saved: set<Expr>                 // every constraint saved so far: the path
    ghost var path: map<nat, set<Expr>>        // the path when each waiting task was made

    ghost predicate CachesValid()
      reads this`exprs, this`deps, this`contents
    {
      && Ordered(table) && |exprs| <= |table| && CachesOk(Caches(exprs, deps))
      && (|deps| > |exprs| ==> Blocked(table, contents, Caches(exprs, deps)))
      && AllAgree(table, contents, Caches(exprs, deps)) && T.EntriesAre(table, contents, Caches(exprs, deps))
    }

    ghost predicate TaskOk(id: nat)
      reads this`tasks, this`nextId, this`path
    {
      id in tasks ==> id < nextId && tasks[id] != [] && id in path && Separated(tasks[id], path[id])
    }

    ghost predicate Valid()
      reads this
    {
      && CachesValid() && Partition(store) && Recorded(store, saved) && StoreInBounds(sizes, store)
      && forall id :: id in tasks ==> TaskOk(id)
    }

    constructor (table: seq<LabelInfo>, sizes: seq<nat>)
      requires Ordered(table)
      ensures Valid() && this.table == table && this.sizes == sizes
      ensures saved == {} && store == map[] && tasks == map[] && contents == map[]
    {
      this.table, this.sizes := table, sizes;
      exprs, deps, contents, store, tasks, nextId := [None], [{}], map[], map[], map[], 0;
      saved, path := {}, map[];
      new;
      assert EntryOk(Caches(exprs, deps), 0);
      hide M.Means;
    }

    /** record_memcmp.  Content for a label that has failed comes too late if it leads to an expression: the next round
        then loses the label's dependencies, unless there are none. */
    method RecordMemcmp(l: nat, buf: seq<nat>)
      requires Valid()
      modifies this`contents
      ensures contents == if l in old(contents) then old(contents) else old(contents)[l := buf]
      ensures l != |exprs| || |deps| == |exprs| || l in old(contents) ==> Valid()
      ensures l == |exprs| < |deps| && l !in old(contents) ==>
        && Ordered(table) && 0 < l < |table|
        && var c := Caches(exprs, deps);
        && (Valid() <==> Translate(table, contents, c, l).None?)
        && (CachesOk(Round(table, contents, c)) <==>
              Translate(table, contents, c, l).None? || CachedDeps(c, table[l].l2) == {})
    {
      hide Translate, Deps, Round, AllAgree, EntryOk, Partition, Recorded, CachedDeps, T.EntriesAre, StoreInBounds;
      if l !in contents {
        ghost var c := Caches(exprs, deps);
        AgreeContent(table, contents, c, l, buf);
        T.MoreContents(table, contents, c, l, buf);
        if |deps| > |exprs| {
          if l != |exprs| {
            TranslateOtherContent(table, contents, c, |exprs|, l, buf);
          } else {
            LateContent(table, contents, c, l, buf);
            LateRound(table, contents[l := buf], c);
          }
        }
        contents := contents[l := buf];
      }
    }

    /** The loop that loads consecutive input bytes. */
    method LoadBytes(first: Offset, n: nat) returns (out: Expr, cur: set<Offset>)
      ensures out == LoadExpr(first, n) && cur == LoadDeps(first, n)
    {
      out := InputByte(first);
      cur := {first};
      var i := 1;
      while i < n
        invariant 1 <= i && (i <= n || (n == 0 && i == 1))
        invariant out == LoadExpr(first, i) && cur == LoadDeps(first, i)
      {
        out := Join(InputByte((first.0, first.1 + i)), out);
        cur := cur + {(first.0, first.1 + i)};
        i := i + 1;
      }
      assert LoadExpr(first, 0) == LoadExpr(first, 1) && LoadDeps(first, 0) == LoadDeps(first, 1);
    }

    /** One round of serialize: the next label is translated and cached. */
    method SerializeNext() returns (ok: bool)
      requires CachesValid() && |exprs| < |table|
      modifies this`exprs, this`deps
      ensures CachesValid()
      ensures Caches(exprs, deps) == Round(table, contents, Caches(old(exprs), old(deps)))
      ensures ok <==> |exprs| == old(|exprs|) + 1
      ensures !ok ==> exprs == old(exprs)
      ensures T.TypedTo(table, |old(exprs)|) ==> (ok <==> T.Accepted(table, contents, |old(exprs)|))
    {
      var l := |exprs|;
      ghost var c := Caches(exprs, deps);
      var info := table[l];
      var entry, cur := Some(Some(BoolVal(false))), {};
      if info.op == Load {
        var e, read := LoadBytes((table[info.l1].op2, table[info.l1].op1), info.l2);
        entry, cur := Some(Some(e)), read;
      } else {
        entry := Translate(table, contents, Caches(exprs, deps), l);
        cur := Deps(table, contents, Caches(exprs, deps), l);
      }
      assert entry == Translate(table, contents, c, l) && cur == Deps(table, contents, c, l);
      RoundOk(table, contents, c);
      AgreeRound(table, contents, c);
      T.RoundEntries(table, contents, c);
      hide Translate, Deps, CachesOk, AllAgree, Blocked, T.EntriesAre, T.TypedTo, T.Accepted;
      if entry.None? { BlockedRound(table, contents, c); }
      deps := deps + [cur];
      ok := entry.Some?;
      if ok {
        exprs := exprs + [entry.value];
      }
    }

    /** A label of the table that is not the constant label. */
    predicate Usable(l: nat) {
      0 < l < |table| && l != INITIALIZING
    }

    /** A label that serialize gives an expression: every label up to it is accepted, and it stands for a value. */
    ghost predicate Handled(l: nat)
      requires Ordered(table) && l < |table|
      reads this`contents
    {
      T.AllAccepted(table, contents, l) && T.HasExpr(table, l)
    }

    /** The bytes that can be reached from a label lie in the inputs. */
    ghost predicate InInputs(l: nat)
      requires Ordered(table) && l < |table|
    {
      forall o :: o in T.LabelReads(table, l) ==> InBounds(sizes, o)
    }

    /** serialize: the expression of label `l` and the bytes it depends on, or None when it throws. */
    method Serialize(l: nat) returns (r: Option<Expr>, inputs: set<Offset>)
      requires CachesValid() && l < |table|
      modifies this`exprs, this`deps
      ensures CachesValid() && old(exprs) <= exprs
      ensures r.Some? ==> SortOf(r.value).Some? && inputs == Reads(r.value)
      ensures r.Some? ==> l < |exprs| && exprs[l] == r && Usable(l)
      ensures Ordered(table) && (Usable(l) && T.TypedTo(table, l) ==> (r.Some? <==> Handled(l)))
      ensures r.Some? && T.TypedTo(table, l) ==>
        SortOf(r.value) == Some(T.LabelSort(table, l)) && inputs == T.LabelReads(table, l)
      ensures |old(exprs)| > 0 && exists n :: Caches(exprs, deps) == Rounds(table, contents, Caches(old(exprs), old(deps)), n)
    {
      hide Translate, Deps, T.EntriesAre, T.TypedTo, T.Accepted, T.AllAccepted, AllAgree, Blocked;
      inputs := {};
      ghost var c, n := Caches(exprs, deps), 0;
      assert Caches(exprs, deps) == Rounds(table, contents, c, n);
      if l < CONST_OFFSET || l == INITIALIZING { return None, {}; }
      while |exprs| <= l
        invariant CachesValid() && old(exprs) <= exprs && Caches(exprs, deps) == Rounds(table, contents, c, n)
        decreases l + 1 - |exprs|
      {
        RoundsSnoc(table, contents, c, n);
        ghost var k := |exprs|;
        var ok := SerializeNext();
        n := n + 1;
        if !ok {
          if T.TypedTo(table, l) { Stopped(l, k); }
          return None, {};
        }
      }
      r := Cached(Caches(exprs, deps), l);
      if T.TypedTo(table, l) { Finished(l); }
      if r.Some? {
        CachedReads(Caches(exprs, deps), l);
        inputs := deps[l];
      }
    }

    lemma {:induction false} Stopped(l: nat, k: nat)
      requires Ordered(table) && 0 < k <= l < |table| && T.TypedTo(table, l)
      requires T.TypedTo(table, k) ==> !T.Accepted(table, contents, k)
      ensures !Handled(l)
    {
      T.TypedBelow(table, l, k);
      T.Refused(table, contents, l, k);
    }

    lemma {:induction false} Finished(l: nat)
      requires CachesValid() && 0 < l < |exprs| && T.TypedTo(table, l)
      ensures exprs[l].Some? <==> Handled(l)
      ensures exprs[l].Some? ==>
        SortOf(exprs[l].value) == Some(T.LabelSort(table, l)) && Reads(exprs[l].value) == T.LabelReads(table, l)
    {
      hide SortOf, Reads, T.Accepted, T.LabelSort, T.LabelReads, Blocked, AllAgree, CachesOk;
      T.Reached(table, contents, Caches(exprs, deps), l);
    }

    /** collect_more_deps throws if and only if a byte given to it lies outside the inputs. */
    method CollectDeps(inputs: set<Offset>) returns (ok: bool, d: set<Offset>)
      requires Partition(store) && StoreInBounds(sizes, store)
      ensures ok <==> forall o :: o in inputs ==> InBounds(sizes, o)
      ensures ok ==> IsClosure(store, inputs, d) && forall o :: o in d ==> InBounds(sizes, o)
    {
      ok, d := CollectMoreDeps(sizes, store, inputs);
      if !ok {
        ghost var o :| !InBounds(sizes, o) && forall e :: inputs <= e && Closed(store, e) ==> o in e;
        OutOfBounds(sizes, store, inputs, o);
      }
    }

    /** serialize followed by collect_more_deps. */
    method SerializeClosed(l: nat) returns (r: Outcome, e: Expr, d: set<Offset>)
      requires Valid() && l < |table|
      modifies this`exprs, this`deps
      ensures Valid() && old(exprs) <= exprs
      ensures r == Success ==> l < |exprs| && exprs[l] == Some(e) && IsClosure(store, Reads(e), d)
      ensures r == Success ==> SortOf(e).Some? && forall o :: o in d ==> InBounds(sizes, o)
      ensures Usable(l) && T.TypedTo(table, l) ==>
        (r == Success <==> Handled(l) && InInputs(l)) && (r == Thrown <==> Handled(l) && !InInputs(l))
      ensures r == Success && T.TypedTo(table, l) ==> SortOf(e) == Some(T.LabelSort(table, l))
    {
      hide Partition, Recorded, IsClosure, CachesOk, Blocked, SortOf, Reads, T.LabelSort, T.LabelReads, T.TypedTo;
      hide T.EntriesAre, AllAgree, T.AllAccepted, T.HasExpr, StoreInBounds, InBounds;
      var x, inputs := Serialize(l);
      if x.None? { return Failure, BoolVal(false), {}; }
      var ok, more := CollectDeps(inputs);
      if !ok { return Thrown, x.value, {}; }
      return Success, x.value, more;
    }

    /** save_constraint, byte by byte, under a set of bytes that is already closed. */
    method SaveConstraint(e: Expr, inputs: set<Offset>)
      requires Partition(store) && Recorded(store, saved) && Closed(store, inputs) && Reads(e) <= inputs
      requires StoreInBounds(sizes, store) && forall o :: o in inputs ==> InBounds(sizes, o)
      modifies this`store, this`saved
      ensures Partition(store) && Recorded(store, saved) && StoreInBounds(sizes, store)
      ensures store == Saved(old(store), e, inputs) && saved == old(saved) + {e}
    {
      hide Partition, Recorded, SavedOn, StoreInBounds, Closed, Reads, InBounds;
      SavedPartition(store, e, inputs);
      SavedRecorded(store, saved, e, inputs);
      SavedInBounds(sizes, store, e, inputs);
      ghost var was := store;
      var todo := inputs;
      NothingSaved(store, e, inputs);
      assert inputs - todo == {};
      while todo != {}
        invariant todo <= inputs && saved == old(saved)
        invariant store == SavedOn(was, e, inputs, inputs - todo)
      {
        var off :| off in todo;
        SavedStep(was, e, inputs, inputs - todo, off);
        assert inputs - (todo - {off}) == (inputs - todo) + {off};
        todo := todo - {off};
        var dep := if off in store then store[off] else BranchDep({}, {});
        assert {} + {e} == {e} && {} + inputs == inputs;
        store := store[off := BranchDep(dep.exprs + {e}, dep.inputs + inputs)];
      }
      assert inputs - todo == inputs;
      saved := saved + {e};
    }

    /** save_task */
    method SaveTask(task: Task) returns (id: nat)
      requires forall k :: k in tasks ==> TaskOk(k)
      requires task != [] && Separated(task, saved)
      modifies this`tasks, this`nextId, this`path
      ensures forall k :: k in tasks ==> TaskOk(k)
      ensures id == old(nextId) && nextId == id + 1
      ensures tasks == old(tasks)[id := task] && path == old(path)[id := saved]
    {
      id := nextId;
      nextId := nextId + 1;
      tasks := tasks[id := task];
      path := path[id := saved];
    }

    method MakeSlice(goal: Expr, d: set<Offset>) returns (task: Task)
      requires Recorded(store, saved) && Closed(store, d) && Reads(goal) <= d
      ensures SliceTask(store, task, goal, d) && Separated(task, saved)
    {
      task := AddNestedConstraints(store, d, [goal]);
      ghost var nested: seq<Expr> :| task == [goal] + nested && forall e :: e in nested <==> e in Nested(store, d);
      assert task[1..] == nested;
      SliceSeparates(store, saved, d, task);
    }

    /** Makes and saves the slice of `goal`. */
    method SaveSlice(goal: Expr, d: set<Offset>) returns (id: nat)
      requires Valid() && Closed(store, d) && Reads(goal) <= d
      modifies this`tasks, this`nextId, this`path
      ensures Valid() && id == old(nextId) && nextId == id + 1
      ensures id in tasks && tasks == old(tasks)[id := tasks[id]] && path == old(path)[id := saved]
      ensures SliceTask(store, tasks[id], goal, d)
    {
      hide CachesValid, Partition, Recorded, Closed, Separated, Nested;
      var task := MakeSlice(goal, d);
      id := SaveTask(task);
    }

    /** parse_cond.  On success there is one new task: flip the branch, given every saved constraint that shares bytes
        with it, directly or through other constraints.  The branch itself is then saved if `addNested`. */
    method ParseCond(l: nat, result: bool, addNested: bool, ids: seq<nat>) returns (r: Outcome, out: seq<nat>)
      requires Valid()
      modifies this`exprs, this`deps, this`store, this`tasks, this`nextId, this`saved, this`path
      ensures Valid() && old(exprs) <= exprs
      ensures r != Success ==>
        out == ids && store == old(store) && saved == old(saved) && tasks == old(tasks) && path == old(path)
      ensures r == Success ==>
        && l < |exprs| && exprs[l].Some?
        && var cond := exprs[l].value;
        && var id := old(nextId);
        && out == ids + [id] && nextId == id + 1 && id !in old(tasks)
        && id in tasks && tasks == old(tasks)[id := tasks[id]] && path == old(path)[id := old(saved)]
        && IsSlice(old(store), tasks[id], NotEquals(cond, BoolVal(result))) && IsBool(cond)
        && saved == old(saved) + (if addNested then {Equals(cond, BoolVal(result))} else {})
      ensures Ordered(table) && (!Usable(l) ==> r == Failure)
      ensures Usable(l) && T.TypedTo(table, l) ==>
        && (r == Success <==> Handled(l) && T.IsTruth(table, l) && InInputs(l))
        && (r == Thrown <==> Handled(l) && T.IsTruth(table, l) && !InInputs(l))
    {
      hide CachesValid, Partition, Recorded, Closed, IsClosure, Separated, SliceTask, SortOf, Reads, Built, IsBool;
      hide T.TypedTo, T.AllAccepted, T.HasExpr, T.LabelSort, T.LabelReads, T.IsTruth, StoreInBounds, InBounds, Handled, IsSlice;
      IsOrdered();
      out := ids;
      if l < CONST_OFFSET || l == INITIALIZING || l >= |table| { return Failure, ids; }
      var cond, inputs := Serialize(l);
      if cond.None? { return Failure, ids; }
      BranchGoal(cond.value, result);
      SortOfLabel(table, cond.value, l);
      var goal := NotEquals(cond.value, BoolVal(result));
      if Built(goal).None? { return Failure, ids; }
      var ok, d := CollectDeps(inputs);
      if !ok { return Thrown, ids; }
      ClosureIs(store, inputs, d);
      assert TaskOk(nextId);
      var id := SaveSlice(goal, d);
      SliceGoal(store, tasks[id], goal, d);
      out := ids + [id];
      if addNested {
        SaveConstraint(Equals(cond.value, BoolVal(result)), d);
      }
      return Success, out;
    }

    /** The label has a truth value, or as many bits as its entry says, on 8 bits. */
    predicate Comparable(l: nat)
      requires Ordered(table) && l < |table|
    {
      table[l].size % WRAP8 != 0 && (T.IsTruth(table, l) || V.LabelBits(table, l) == table[l].size % WRAP8)
    }

    lemma {:induction false} IsOrdered()
      requires CachesValid()
      ensures Ordered(table)
    {
    }

    /** add_constraints: the label has the recorded value. */
    method AddConstraints(l: nat, result: nat) returns (r: Outcome)
      requires Valid()
      modifies this`exprs, this`deps, this`store, this`saved
      ensures Valid() && old(exprs) <= exprs
      ensures r != Success ==> store == old(store) && saved == old(saved)
      ensures r == Success ==>
        && l < |exprs| && exprs[l].Some? && l < |table|
        && var e := exprs[l].value;
        && var k := if IsBool(e) then BoolVal(result != 0) else BvVal(result, table[l].size % WRAP8);
        && saved == old(saved) + {Equals(e, k)}
      ensures Ordered(table) && (!Usable(l) ==> r == Failure)
      ensures Usable(l) && T.TypedTo(table, l) ==>
        && (r == Success <==> Handled(l) && InInputs(l) && Comparable(l))
        && (r == Thrown <==> Handled(l) && !InInputs(l))
    {
      hide CachesValid, Partition, Recorded, Closed, IsClosure, SortOf, Reads, Built, IsBool, StoreInBounds, InBounds;
      hide T.TypedTo, T.AllAccepted, T.HasExpr, T.LabelSort, T.LabelReads, T.IsTruth, V.LabelBits;
      IsOrdered();
      if l < CONST_OFFSET || l == INITIALIZING || l >= |table| { return Failure; }
      var res, e, d := SerializeClosed(l);
      if res != Success { return res; }
      var size := table[l].size % WRAP8;
      if size == 0 { return Failure; }
      var k := if IsBool(e) then BoolVal(result != 0) else BvVal(result, size);
      EqualityGoal(e, k);
      SortOfLabel(table, e, l);
      if Built(Equals(e, k)).None? { return Failure; }
      ClosureIs(store, Reads(e), d);
      SaveConstraint(Equals(e, k), d);
      return Success;
    }

    /** The task for the index value `i`, after those for the values in `done`. */
    method SaveIndexTask(index: Expr, i: nat, d: set<Offset>, ghost before: map<nat, Task>, ghost first: nat,
                         ghost done: seq<nat>) returns (id: nat)
      requires Valid() && IsClosure(store, Reads(index), d) && nextId == first + |done|
      requires Enumerated(before, first, index, done, store, saved, tasks, path)
      modifies this`tasks, this`nextId, this`path
      ensures Valid() && id == old(nextId) && nextId == id + 1
      ensures Enumerated(before, first, index, done + [i], store, saved, tasks, path)
    {
      hide CachesValid, Partition, Recorded, Closed, IsClosure, Separated, SliceTask, IsSlice, TaskOk, Enumerated, Reads;
      ghost var was, paths := tasks, path;
      var goal := Equals(index, BvVal(i, 64));
      IndexGoal(index, i);
      ClosureIs(store, Reads(index), d);
      id := SaveSlice(goal, d);
      SliceGoal(store, tasks[id], goal, d);
      EnumeratedSnoc(before, first, index, done, store, saved, was, paths, i, tasks[id]);
    }

    /** construct_index_tasks: one task for every other value of the enumeration, in order. */
    method ConstructIndexTasks(index: Expr, curr: nat, lb: nat, ub: nat, step: nat, d: set<Offset>, ids: seq<nat>)
      returns (ok: bool, out: seq<nat>)
      requires Valid() && IsClosure(store, Reads(index), d) && step > 0
      modifies this`tasks, this`nextId, this`path
      ensures Valid()
      ensures !ok ==> out == ids && tasks == old(tasks) && path == old(path)
      ensures old(nextId) <= nextId
      ensures ok ==> Enumerated(old(tasks), old(nextId), index, Indices(lb, ub, step, curr), store, saved, tasks, path)
      ensures ok ==> out == ids + Count(old(nextId), |Indices(lb, ub, step, curr)|)
      ensures ok <==> Indices(lb, ub, step, curr) == [] || SortOf(index) == Some(BvSort(64))
    {
      hide CachesValid, Partition, Recorded, IsClosure, Separated, TaskOk, Enumerated, Indices, Count, SortOf, Reads, Built;
      out := ids;
      var i := lb;
      ghost var done: seq<nat> := [];
      assert [] + Indices(lb, ub, step, curr) == Indices(lb, ub, step, curr);
      EnumeratedStart(tasks, nextId, index, store, saved, path);
      CountSteps(nextId);
      while i < ub
        invariant Valid() && IsClosure(store, Reads(index), d)
        invariant store == old(store) && saved == old(saved)
        invariant done + Indices(i, ub, step, curr) == Indices(lb, ub, step, curr)
        invariant done != [] ==> SortOf(index) == Some(BvSort(64))
        invariant nextId == old(nextId) + |done| && out == ids + Count(old(nextId), |done|)
        invariant Enumerated(old(tasks), old(nextId), index, done, store, saved, tasks, path)
        invariant done == [] ==> tasks == old(tasks) && path == old(path)
        decreases ub - i
      {
        if i != curr {
          var goal := Equals(index, BvVal(i, 64));
          IndexGoal(index, i);
          if Built(goal).None? {
            assert out == ids;
            NotEmpty(done, i, ub, step, curr);
            return false, ids;
          }
          var id := SaveIndexTask(index, i, d, old(tasks), old(nextId), done);
          out := out + [id];
          assert out == ids + Count(old(nextId), |done + [i]|);
        }
        IndicesStep(done, i, ub, step, curr);
        done := if i == curr then done else done + [i];
        i := i + step;
      }
      IndicesEnd(i, ub, step, curr);
      assert done + [] == done;
      ok := true;
    }

    /** The enumeration of parse_gep: over a known number of elements, or over the addresses of a buffer of fixed size. */
    method EnumerateIndices(idx: Expr, bounds: LabelInfo, ptr: nat, curr: nat, numElems: nat, elemSize: nat, offset: int,
                            d: set<Offset>, ids: seq<nat>) returns (ok: bool, out: seq<nat>)
      requires Valid() && IsClosure(store, Reads(idx), d) && (numElems == 0 ==> elemSize > 0)
      modifies this`tasks, this`nextId, this`path
      ensures Valid() && old(nextId) <= nextId
      ensures ok && numElems > 0 ==>
        Enumerated(old(tasks), old(nextId), idx, Indices(0, numElems, 1, curr), store, saved, tasks, path)
      ensures ok && numElems == 0 && bounds.op in {Alloca, Free} && bounds.l2 == 0 ==>
        Enumerated(old(tasks), old(nextId), Address(idx, elemSize, offset, ptr),
                   Indices(bounds.op1, bounds.op2, elemSize, curr), store, saved, tasks, path)
      ensures !ok || (numElems == 0 && !FixedBuffer(bounds)) ==> tasks == old(tasks) && path == old(path)
      ensures ok <==> SortOf(idx) == Some(BvSort(64)) || NothingToTry(bounds, curr, numElems)
    {
      hide CachesValid, Partition, Recorded, IsClosure, Separated, Enumerated, Indices, SortOf, Built;
      ok, out := true, ids;
      if numElems > 0 {
        NothingToTryIff(curr, numElems);
        ok, out := ConstructIndexTasks(idx, curr, 0, numElems, 1, d, ids);
      } else if FixedBuffer(bounds) {
        var address := Address(idx, elemSize, offset, ptr);
        AddressReads(idx, elemSize, offset, ptr);
        if Built(address).None? { return false, ids; }
        ok, out := ConstructIndexTasks(address, curr, bounds.op1, bounds.op2, elemSize, d, ids);
      }
    }

    /** The rest of parse_gep for the index expression `e` of `size` bits: the enumeration, then the constraint. */
    method TryIndices(e: Expr, size: nat, bounds: LabelInfo, ptr: nat, curr: nat, numElems: nat, elemSize: nat, offset: int,
                      d: set<Offset>, ids: seq<nat>) returns (r: Outcome, out: seq<nat>)
      requires Valid() && IsClosure(store, Reads(e), d) && (numElems == 0 ==> elemSize > 0) && curr < WRAP64
      requires SortOf(e).Some? && 0 < size < WRAP8 && forall o :: o in d ==> InBounds(sizes, o)
      modifies this`store, this`tasks, this`nextId, this`saved, this`path
      ensures Valid() && old(nextId) <= nextId && r != Thrown
      ensures r == Success <==> SortOf(e) == Some(BvSort(size)) && (size <= 64 || NothingToTry(bounds, curr, numElems))
      ensures r != Success ==> store == old(store) && saved == old(saved)
      ensures r == Success ==> saved == old(saved) + {Equals(e, BvVal(curr, size))}
      ensures
        var idx := Zext(e, (64 - size) % WRAP32);
        && (r == Success && numElems > 0 ==>
              Enumerated(old(tasks), old(nextId), idx, Indices(0, numElems, 1, curr), old(store), old(saved), tasks, path))
        && (r == Success && numElems == 0 ==>
              if bounds.op in {Alloca, Free} && bounds.l2 == 0 then
                Enumerated(old(tasks), old(nextId), Address(idx, elemSize, offset, ptr),
                           Indices(bounds.op1, bounds.op2, elemSize, curr), old(store), old(saved), tasks, path)
              else tasks == old(tasks))
    {
      hide CachesValid, Partition, Recorded, Closed, IsClosure, Separated, Enumerated, Indices, SortOf, Reads, Built, IsBool;
      hide StoreInBounds, InBounds, NothingToTry, TaskOk, Address;
      out := ids;
      var idx := Zext(e, (64 - size) % WRAP32);
      IndexSort(e, size);
      if Built(idx).None? { return Failure, ids; }
      var same := Equals(e, BvVal(curr, size));
      EqualityGoal(e, BvVal(curr, size));
      var ok: bool;
      ok, out := EnumerateIndices(idx, bounds, ptr, curr, numElems, elemSize, offset, d, ids);
      if !ok { return Failure, ids; }
      if Built(same).None? { return Failure, out; }
      ClosureIs(store, Reads(e), d);
      SaveConstraint(same, d);
      return Success, out;
    }

    /** parse_gep: tasks for the other values of a symbolic array index, then the
        constraint that the index has its current value.  An enumeration by zero-sized elements does not end. */
    method ParseGep(ptrLabel: nat, ptr: nat, l: nat, index: int, numElems: nat, elemSize: nat, offset: int,
                    enumIndex: bool, ids: seq<nat>) returns (r: Outcome, out: seq<nat>)
      requires Valid() && (numElems == 0 ==> elemSize > 0)
      modifies this`exprs, this`deps, this`store, this`tasks, this`nextId, this`saved, this`path
      ensures Valid() && old(exprs) <= exprs && old(nextId) <= nextId
      ensures r != Success ==> store == old(store) && saved == old(saved)
      ensures r == Success && (!enumIndex || (numElems == 0 && ptrLabel == 0)) ==>
        out == ids && store == old(store) && saved == old(saved) && tasks == old(tasks) && path == old(path)
      ensures r == Success && enumIndex && (numElems != 0 || ptrLabel != 0) ==>
        && l < |exprs| && exprs[l].Some? && l < |table|
        && saved == old(saved) + {Equals(exprs[l].value, BvVal(index % WRAP64, table[l].size % WRAP8))}
      ensures r == Success && enumIndex && numElems > 0 ==>
        && l < |exprs| && exprs[l].Some? && l < |table|
        && var idx := Zext(exprs[l].value, (64 - table[l].size % WRAP8) % WRAP32);
        Enumerated(old(tasks), old(nextId), idx, Indices(0, numElems, 1, index % WRAP64), old(store), old(saved), tasks, path)
      ensures r == Success && enumIndex && numElems == 0 && ptrLabel != 0 ==>
        && l < |exprs| && exprs[l].Some? && l < |table| && ptrLabel < |table|
        && var (idx, bounds) := (Zext(exprs[l].value, (64 - table[l].size % WRAP8) % WRAP32), table[ptrLabel]);
        if bounds.op in {Alloca, Free} && bounds.l2 == 0 then
          Enumerated(old(tasks), old(nextId), Address(idx, elemSize, offset, ptr),
                     Indices(bounds.op1, bounds.op2, elemSize, index % WRAP64), old(store), old(saved), tasks, path)
        else tasks == old(tasks)
      ensures Ordered(table)
      ensures !Usable(l) || ptrLabel == INITIALIZING || ptrLabel >= |table| ==> r == Failure
      ensures Usable(l) && ptrLabel != INITIALIZING && ptrLabel < |table| ==>
        (!enumIndex || (numElems == 0 && ptrLabel == 0) ==> r == Success)
      ensures Usable(l) && T.TypedTo(table, l) && ptrLabel != INITIALIZING && ptrLabel < |table| && enumIndex
              && (numElems != 0 || ptrLabel != 0) && table[l].size % WRAP8 != 0 ==>
        && (r == Success <==>
              && Handled(l) && InInputs(l) && T.IsVector(table, l) && V.LabelBits(table, l) == table[l].size % WRAP8
              && (table[l].size % WRAP8 <= 64 || NothingToTry(table[ptrLabel], index % WRAP64, numElems)))
        && (r == Thrown <==> Handled(l) && !InInputs(l))
    {
      hide CachesValid, Partition, Recorded, Closed, IsClosure, Separated, Enumerated, Indices, SortOf, Reads, Built, IsBool;
      hide T.TypedTo, T.AllAccepted, T.LabelSort, T.LabelReads, T.IsTruth, V.LabelBits, StoreInBounds, InBounds, NothingToTry;
      hide TaskOk, Address;
      IsOrdered();
      out := ids;
      if l < CONST_OFFSET || l == INITIALIZING || l >= |table| || ptrLabel == INITIALIZING || ptrLabel >= |table| {
        return Failure, ids;
      }
      if !enumIndex || (numElems == 0 && ptrLabel == 0) { return Success, ids; }
      var size := table[l].size % WRAP8;
      if size == 0 { return Failure, ids; }
      var res, e, d := SerializeClosed(l);
      if res != Success { return res, ids; }
      SortOfLabel(table, e, l);
      r, out := TryIndices(e, size, table[ptrLabel], ptr, index % WRAP64, numElems, elemSize, offset, d, ids);
    }

    /** solve_task.  `first` answers for the goal alone, `both` for the whole task. */
    method SolveTask(id: nat, first: Answer, both: Answer) returns (status: Status, solution: Option<Model>)
      requires Valid()
      modifies this`tasks
      ensures Valid() && tasks == old(tasks) - {id}
      ensures status == InvalidTask <==> id !in old(tasks)
      ensures id in old(tasks) ==>
        && (solution.Some? <==> first.Sat?)
        && (status == OptUnsat <==> first.Unsat?) && (status == OptTimeout <==> first.Unknown?)
        && (status == NestedSat <==> first.Sat? && (|old(tasks)[id]| == 1 || both.Sat?))
        && (status == OptSatNestedUnsat <==> first.Sat? && |old(tasks)[id]| > 1 && both.Unsat?)
        && (status == OptSatNestedTimeout <==> first.Sat? && |old(tasks)[id]| > 1 && both.Unknown?)
      ensures id in old(tasks) && first.Sat? ==>
        solution.value == if status == NestedSat && |old(tasks)[id]| > 1 then both.model else first.model
    {
      status, solution := UnknownError, None;
      if id !in tasks { return InvalidTask, None; }
      var task := tasks[id];
      tasks := tasks - {id};
      match first
      case Sat(m) =>
        if |task| > 1 {
          match both {
            case Sat(n) => return NestedSat, Some(n);
            case Unsat => return OptSatNestedUnsat, Some(m);
            case Unknown => return OptSatNestedTimeout, Some(m);
          }
        } else {
          return NestedSat, Some(m);
        }
      case Unsat => return OptUnsat, None;
      case Unknown => return OptTimeout, None;
    }

    /** What solving a waiting task is good for.  Let the answers be right and let the original input satisfy the path
        recorded when its task was made.  A nested-sat solution, written over the original input, reaches the goal and
        keeps the whole recorded path; any other solution reaches at least the goal. */
    lemma {:induction false} SolutionsAreRight(id: nat, m: ArithMeaning, first: Answer, both: Answer, original: Input)
      requires Valid() && id in tasks
      requires first.Sat? ==> IsModel(m, [tasks[id][0]], first.model)
      requires both.Sat? ==> IsModel(m, tasks[id], both.model)
      requires forall e :: e in path[id] ==> True(m, original, e)
      ensures first.Sat? && |tasks[id]| == 1 ==>
        True(m, Patched(original, first.model), tasks[id][0])
        && forall e :: e in path[id] ==> True(m, Patched(original, first.model), e)
      ensures both.Sat? ==>
        (forall e :: e in tasks[id] ==> True(m, Patched(original, both.model), e))
        && forall e :: e in path[id] ==> True(m, Patched(original, both.model), e)
      ensures first.Sat? ==> True(m, Patched(original, first.model), tasks[id][0])
    {
      assert TaskOk(id);
      var task := tasks[id];
      assert task[0] in [task[0]];
      if first.Sat? && |task| == 1 {
        assert task == [task[0]];
        SlicingSound(m, task, path[id], original, first.model);
      }
      if both.Sat? { SlicingSound(m, task, path[id], original, both.model); }
    }

    /** A label that the path of a task gives a value, with the value of its expression on both inputs. */
    ghost predicate KeepsLabels(id: nat, w: V.World, v: V.World)
      requires Ordered(table) && |exprs| <= |table| && id in path
      reads this`exprs, this`path
    {
      forall k, e :: 0 <= k < |exprs| && exprs[k].Some? && e in path[id] && Fixes(e, exprs[k].value) ==>
        V.Value(v, table, k) == V.Value(w, table, k)
    }

    /** Let `model` be a model of a whole task and let the original input follow the recorded path.  With the model written
        over the original input the goal is true, every label has the value of its expression, and every label of a
        recorded constraint keeps its value. */
    lemma {:induction false} SolutionsKeepLabels(id: nat, w: V.World, model: Model)
      requires Valid() && Fair(w, table, contents) && id in tasks
      requires IsModel(w.arith, tasks[id], model) && forall e :: e in path[id] ==> True(w.arith, w.input, e)
      ensures Ordered(table) && |exprs| <= |table| && tasks[id] != [] && id in path
      ensures
        var v := w.(input := Patched(w.input, model));
        && True(w.arith, v.input, tasks[id][0]) && KeepsLabels(id, w, v)
        && forall l :: 0 <= l < |exprs| && exprs[l].Some? ==> Eval(w.arith, v.input, exprs[l].value) == V.Value(v, table, l)
    {
      var v := w.(input := Patched(w.input, model));
      assert TaskOk(id);
      SlicingSound(w.arith, tasks[id], path[id], w.input, model);
      hide Fixes, True, Eval, V.Value, SortOf, IsModel, Separated, CachesOk, Blocked, Partition, Recorded;
      assert Fair(v, table, contents);
      LabelMeans(w, table, contents, Caches(exprs, deps));
      LabelMeans(v, table, contents, Caches(exprs, deps));
      forall k, e | 0 <= k < |exprs| && exprs[k].Some? && e in path[id] && Fixes(e, exprs[k].value)
        ensures V.Value(v, table, k) == V.Value(w, table, k)
      {
        FixedValue(w.arith, w.input, v.input, e, exprs[k].value);
      }
    }

    /** The same in terms of labels.  Let task `id` ask for the other outcome of the branch on label `l`, let `model` be
        a model of the whole task, and let the original input follow the recorded path.  With the model written over the
        original input the condition has the other value, and every label of a recorded constraint keeps its value. */
    lemma {:induction false} SolutionsFlipLabels(id: nat, w: V.World, model: Model, l: nat, result: bool)
      requires Valid() && Fair(w, table, contents) && id in tasks && 0 < l < |exprs| && exprs[l].Some?
      requires tasks[id][0] == NotEquals(exprs[l].value, BoolVal(result)) && IsBool(exprs[l].value)
      requires IsModel(w.arith, tasks[id], model) && forall e :: e in path[id] ==> True(w.arith, w.input, e)
      ensures Ordered(table) && |exprs| <= |table| && id in path
      ensures
        var v := w.(input := Patched(w.input, model));
        V.Value(v, table, l) == B(!result) && KeepsLabels(id, w, v)
    {
      hide True, Eval, V.Value, SortOf, IsModel, KeepsLabels;
      SolutionsKeepLabels(id, w, model);
      FlippedValue(w.arith, Patched(w.input, model), exprs[l].value, result);
    }
  }

  lemma {:induction false} BranchGoal(cond: Expr, result: bool)
    ensures Reads(NotEquals(cond, BoolVal(result))) == Reads(Equals(cond, BoolVal(result))) == Reads(cond)
    ensures Built(NotEquals(cond, BoolVal(result))).Some? <==> IsBool(cond)
  {
    var k := BoolVal(result);
    assert Reads(k) == {} && SortOf(k) == Some(BoolSort);
    assert Reads(NotEquals(cond, k)) == Reads(cond) + Reads(k) && Reads(Equals(cond, k)) == Reads(cond) + Reads(k);
  }

  lemma {:induction false} EqualityGoal(e: Expr, k: Expr)
    requires k.BoolVal? || (k.BvVal? && k.bits > 0)
    ensures Reads(Equals(e, k)) == Reads(e)
    ensures Built(Equals(e, k)).Some? <==> SortOf(e) == Some(if k.BoolVal? then BoolSort else BvSort(k.bits))
  {
    assert Reads(k) == {} && Reads(Equals(e, k)) == Reads(e) + Reads(k);
    assert SortOf(k) == Some(if k.BoolVal? then BoolSort else BvSort(k.bits));
  }

  /** What the sort of a label says about its expression. */
  lemma {:induction false} SortOfLabel(table: seq<LabelInfo>, e: Expr, l: nat)
    requires Ordered(table) && l < |table| && SortOf(e).Some?
    ensures IsBool(e) <==> SortOf(e) == Some(BoolSort)
    ensures SortOf(e) == Some(T.LabelSort(table, l)) ==>
      && (IsBool(e) <==> T.IsTruth(table, l))
      && forall n :: SortOf(e) == Some(BvSort(n)) <==> !T.IsTruth(table, l) && V.LabelBits(table, l) == n
  {
    hide SortOf, T.IsTruth, V.LabelBits;
  }

  /** An index of `size` bits as one of 64. */
  lemma {:induction false} IndexSort(e: Expr, size: nat)
    requires SortOf(e).Some? && 0 < size < WRAP8
    ensures
      var idx := Zext(e, (64 - size) % WRAP32);
      && Reads(idx) == Reads(e) && (Built(idx).Some? <==> !IsBool(e))
      && (Built(idx).None? ==> SortOf(e) != Some(BvSort(size)))
      && (SortOf(e) == Some(BvSort(size)) ==> (SortOf(idx) == Some(BvSort(64)) <==> size <= 64))
  {
  }

  lemma {:induction false} ClosureIs(store: Store, s: set<Offset>, d: set<Offset>)
    requires IsClosure(store, s, d)
    ensures s <= d && Closed(store, d)
  {
  }

  lemma {:induction false} SliceGoal(store: Store, task: Task, goal: Expr, d: set<Offset>)
    requires IsClosure(store, Reads(goal), d) && SliceTask(store, task, goal, d)
    ensures IsSlice(store, task, goal) && task != [] && task[0] == goal
  {
  }

  /** idx * elemSize + offset + ptr on 64 bits. */
  function Address(idx: Expr, elemSize: nat, offset: int, ptr: nat): Expr {
    Arith(Add, Arith(Add, Arith(Mul, idx, BvVal(elemSize, 64)), BvVal(offset % WRAP64, 64)), BvVal(ptr, 64))
  }

  lemma {:induction false} AddressReads(idx: Expr, elemSize: nat, offset: int, ptr: nat)
    ensures Reads(Address(idx, elemSize, offset, ptr)) == Reads(idx)
    ensures SortOf(Address(idx, elemSize, offset, ptr)) == if SortOf(idx) == Some(BvSort(64)) then Some(BvSort(64)) else None
    ensures Built(Address(idx, elemSize, offset, ptr)).Some? <==> SortOf(idx) == Some(BvSort(64))
  {
    hide SortOf, Reads;
    var scaled := Arith(Mul, idx, BvVal(elemSize, 64));
    var moved := Arith(Add, scaled, BvVal(offset % WRAP64, 64));
    WithConstant(Mul, idx, elemSize);
    WithConstant(Add, scaled, offset % WRAP64);
    WithConstant(Add, moved, ptr);
  }

  /** An operator on 64 bits with a constant. */
  lemma {:induction false} WithConstant(op: Op, e: Expr, v: nat)
    ensures
      var r := Arith(op, e, BvVal(v, 64));
      Reads(r) == Reads(e) && SortOf(r) == if SortOf(e) == Some(BvSort(64)) then Some(BvSort(64)) else None
  {
    var k := BvVal(v, 64);
    assert Reads(k) == {} && SortOf(k) == Some(BvSort(64));
    assert Reads(Arith(op, e, k)) == Reads(e) + Reads(k);
  }

  /** The bounds of a buffer whose size is not symbolic. */
  predicate FixedBuffer(bounds: LabelInfo) {
    (bounds.op == Alloca || bounds.op == Free) && bounds.l2 == 0
  }

  /** There is no other index to enumerate: a single element, or no bounds of fixed size. */
  predicate NothingToTry(bounds: LabelInfo, curr: nat, numElems: nat) {
    if numElems > 0 then numElems == 1 && curr == 0 else !FixedBuffer(bounds)
  }

  lemma {:induction false} NothingToTryIff(curr: nat, numElems: nat)
    requires numElems > 0
    ensures Indices(0, numElems, 1, curr) == [] <==> numElems == 1 && curr == 0
  {
    if numElems > 1 && curr == 0 { assert Indices(1, numElems, 1, curr) != []; }
  }

  lemma {:induction false} IndexGoal(index: Expr, i: nat)
    ensures Built(Equals(index, BvVal(i, 64))).Some? <==> SortOf(index) == Some(BvSort(64))
    ensures Reads(Equals(index, BvVal(i, 64))) == Reads(index)
  {
    EqualityGoal(index, BvVal(i, 64));
  }

  /** The values of the enumeration without the current one. */
  function Indices(i: nat, ub: nat, step: nat, curr: nat): seq<nat>
    requires step > 0
    decreases if i < ub then ub - i else 0
  {
    if i >= ub then [] else (if i == curr then [] else [i]) + Indices(i + step, ub, step, curr)
  }

  /** `n` task ids from `first` on. */
  function Count(first: nat, n: nat): seq<nat> {
    seq(n, i requires 0 <= i => first + i)
  }

  lemma {:induction false} CountSteps(first: nat)
    ensures Count(first, 0) == []
    ensures forall n: nat :: Count(first, n + 1) == Count(first, n) + [first + n]
  {
  }

  lemma {:induction false} IndicesStep(done: seq<nat>, i: nat, ub: nat, step: nat, curr: nat)
    requires step > 0 && i < ub
    ensures (if i == curr then done else done + [i]) + Indices(i + step, ub, step, curr) == done + Indices(i, ub, step, curr)
  {
    var rest := Indices(i + step, ub, step, curr);
    assert [] + rest == rest && (done + [i]) + rest == done + ([i] + rest);
  }

  /** The value reached in `n` steps from `lb`. */
  function After(lb: nat, step: nat, n: nat): (r: nat)
    ensures lb <= r
    decreases n
  {
    if n == 0 then lb else After(lb + step, step, n - 1)
  }

  /** The enumeration has exactly the other values that are reached in steps from the lower bound. */
  lemma {:induction false} IndicesAre(lb: nat, ub: nat, step: nat, curr: nat, n: nat)
    requires step > 0
    ensures After(lb, step, n) in Indices(lb, ub, step, curr) <==> After(lb, step, n) < ub && After(lb, step, n) != curr
    decreases n
  {
    IndicesAtLeast(lb + step, ub, step, curr);
    if lb < ub {
      var (head, rest) := (if lb == curr then [] else [lb], Indices(lb + step, ub, step, curr));
      assert Indices(lb, ub, step, curr) == head + rest;
      if n > 0 { IndicesAre(lb + step, ub, step, curr, n - 1); }
    }
  }

  lemma {:induction false} IndicesAtLeast(lb: nat, ub: nat, step: nat, curr: nat)
    requires step > 0
    ensures forall i :: i in Indices(lb, ub, step, curr) ==> lb <= i < ub && i != curr
    decreases if lb < ub then ub - lb else 0
  {
    if lb < ub {
      var (head, rest) := (if lb == curr then [] else [lb], Indices(lb + step, ub, step, curr));
      IndicesAtLeast(lb + step, ub, step, curr);
      assert forall i :: i in head + rest <==> i in head || i in rest;
    }
  }

  /** In increasing order. */
  lemma {:induction false} IndicesIncrease(lb: nat, ub: nat, step: nat, curr: nat, j: nat, k: nat)
    requires step > 0 && j < k < |Indices(lb, ub, step, curr)|
    ensures Indices(lb, ub, step, curr)[j] < Indices(lb, ub, step, curr)[k]
    decreases if lb < ub then ub - lb else 0
  {
    if lb < ub {
      var (head, rest) := (if lb == curr then [] else [lb], Indices(lb + step, ub, step, curr));
      assert Indices(lb, ub, step, curr) == head + rest;
      IndicesAtLeast(lb + step, ub, step, curr);
      if j >= |head| {
        IndicesIncrease(lb + step, ub, step, curr, j - |head|, k - |head|);
      } else {
        assert rest[k - |head|] in rest;
      }
    }
  }

  lemma {:induction false} NotEmpty(done: seq<nat>, i: nat, ub: nat, step: nat, curr: nat)
    requires step > 0 && i < ub && i != curr
    ensures done + Indices(i, ub, step, curr) != []
  {
  }

  lemma {:induction false} IndicesEnd(i: nat, ub: nat, step: nat, curr: nat)
    requires step > 0 && i >= ub
    ensures Indices(i, ub, step, curr) == []
  {
  }

  lemma {:induction false} EnumeratedStart(before: map<nat, Task>, first: nat, index: Expr, store: Store, path: set<Expr>,
                                           paths: map<nat, set<Expr>>)
    ensures Enumerated(before, first, index, [], store, path, before, paths)
  {
  }

  lemma {:induction false} EnumeratedSnoc(before: map<nat, Task>, first: nat, index: Expr, done: seq<nat>, store: Store,
                                          path: set<Expr>, tasks: map<nat, Task>, paths: map<nat, set<Expr>>, i: nat,
                                          task: Task)
    requires Enumerated(before, first, index, done, store, path, tasks, paths)
    requires IsSlice(store, task, Equals(index, BvVal(i, 64)))
    ensures
      var id := first + |done|;
      Enumerated(before, first, index, done + [i], store, path, tasks[id := task], paths[id := path])
  {
    hide IsSlice;
    var tasks', paths' := tasks[first + |done| := task], paths[first + |done| := path];
    forall k | 0 <= k < |done + [i]|
      ensures IndexTask(index, (done + [i])[k], store, path, tasks', paths', first + k)
    {
      if k < |done| { assert IndexTask(index, done[k], store, path, tasks, paths, first + k); }
    }
  }

  /** Task `id` is the slice that asks for the index value `i`, made on `path`. */
  ghost predicate IndexTask(index: Expr, i: nat, store: Store, path: set<Expr>, tasks: map<nat, Task>,
                            paths: map<nat, set<Expr>>, id: nat)
  {
    id in tasks && id in paths && paths[id] == path && IsSlice(store, tasks[id], Equals(index, BvVal(i, 64)))
  }

  /** Besides the tasks there were, there is one task from id `first` on for every value in `done`, made on `path`. */
  ghost predicate Enumerated(before: map<nat, Task>, first: nat, index: Expr, done: seq<nat>, store: Store,
                             path: set<Expr>, tasks: map<nat, Task>, paths: map<nat, set<Expr>>)
  {
    && (forall id :: id in tasks <==> id in before || first <= id < first + |done|)
    && (forall id :: id in before && id < first ==> tasks[id] == before[id])
    && (forall k :: 0 <= k < |done| ==> IndexTask(index, done[k], store, path, tasks, paths, first + k))
  }
}
