/** The dependency store of the Z3 parser (solvers/z3-ts.cpp, include/parse-z3.h): for every input byte, the saved
    constraints that read it and the bytes connected with it; and why solving one slice of it is enough. */
module Slicing {
  import opened Base
  import opened Z3Expr

  /** branch_dependency */
  datatype BranchDep = BranchDep(exprs: set<Expr>, inputs: set<Offset>)

  /** branch_deps_, without its null entries. */
  type Store = map<Offset, BranchDep>

  // ---- closed sets of bytes ----

  ghost predicate Closed(store: Store, d: set<Offset>) {
    forall o :: o in d && o in store ==> store[o].inputs <= d
  }

  /** The least closed set that contains `s`. */
  ghost predicate IsClosure(store: Store, s: set<Offset>, d: set<Offset>) {
    && s <= d && Closed(store, d)
    && forall e :: s <= e && Closed(store, e) ==> d <= e
  }

  /** Every byte mentioned anywhere in the store. */
  ghost function Universe(store: Store): set<Offset> {
    set o, p | p in store && o in store[p].inputs :: o
  }

  /** The bytes for which the store has a place. */
  predicate InBounds(sizes: seq<nat>, o: Offset) {
    o.0 < |sizes| && o.1 < sizes[o.0]
  }

  /** collect_more_deps: a worklist closes the set of bytes.  `ok` is false if and only if a byte that belongs to every
      closed set is out of bounds, in which case an exception leaves the parser. */
  method CollectMoreDeps(sizes: seq<nat>, store: Store, s: set<Offset>) returns (ok: bool, d: set<Offset>)
    ensures ok ==> IsClosure(store, s, d) && forall o :: o in d ==> InBounds(sizes, o)
    ensures !ok ==> exists o :: !InBounds(sizes, o) && forall e :: s <= e && Closed(store, e) ==> o in e
  {
    d := s;
    var worklist := SetToSeq(s);
    while worklist != []
      invariant s <= d <= s + Universe(store)
      invariant forall o :: o in worklist ==> o in d
      invariant forall o :: o in d && o !in worklist ==> InBounds(sizes, o) && (o in store ==> store[o].inputs <= d)
      invariant forall e :: s <= e && Closed(store, e) ==> d <= e
      decreases (s + Universe(store)) - d, |worklist|
    {
      var off := worklist[|worklist| - 1];
      assert worklist == worklist[..|worklist| - 1] + [off];
      worklist := worklist[..|worklist| - 1];
      if !InBounds(sizes, off) { return false, d; }
      if off in store {
        ghost var before := d;
        d, worklist := InsertAll(store[off].inputs, d, worklist);
        assert forall o :: o in store[off].inputs ==> o in Universe(store);
      }
    }
    ok := true;
  }

  /** The inner loop of the worklist: bytes not seen before are inserted and queued. */
  method InsertAll(more: set<Offset>, d: set<Offset>, worklist: seq<Offset>) returns (d': set<Offset>, worklist': seq<Offset>)
    ensures d' == d + more
    ensures forall o :: o in worklist' <==> o in worklist || o in more - d
    ensures more <= d ==> worklist' == worklist
  {
    d', worklist' := d, worklist;
    var todo := more;
    while todo != {}
      invariant todo <= more && d' == d + (more - todo)
      invariant forall o :: o in worklist' <==> o in worklist || o in (more - todo) - d
      invariant more <= d ==> worklist' == worklist
    {
      var o :| o in todo;
      todo := todo - {o};
      if o !in d' {
        d' := d' + {o};
        worklist' := worklist' + [o];
      }
    }
  }

  /** The elements of a set, in no particular order. */
  method SetToSeq<T(==)>(s: set<T>) returns (q: seq<T>)
    ensures forall x :: x in q <==> x in s
    ensures |q| == |s|
  {
    q := [];
    var todo := s;
    while todo != {}
      invariant todo <= s && |q| + |todo| == |s|
      invariant forall x :: x in q <==> x in s - todo
    {
      var x :| x in todo;
      todo := todo - {x};
      q := q + [x];
    }
  }

  lemma {:induction false} ClosureUnique(store: Store, s: set<Offset>, d: set<Offset>, e: set<Offset>)
    requires IsClosure(store, s, d) && IsClosure(store, s, e)
    ensures d == e
  {
  }

  // ---- the store is a partition ----

  /** Each stored byte belongs to its own set, and all members of a set have that same set. */
  ghost predicate Partition(store: Store) {
    forall o :: o in store ==>
      o in store[o].inputs && forall p :: p in store[o].inputs ==> p in store && store[p].inputs == store[o].inputs
  }

  ghost predicate StoreInBounds(sizes: seq<nat>, store: Store) {
    forall o :: o in store ==> InBounds(sizes, o)
  }

  /** While all stored bytes are in bounds, the closure of a set is if the set is. */
  lemma {:induction false} OutOfBounds(sizes: seq<nat>, store: Store, s: set<Offset>, o: Offset)
    requires Partition(store) && StoreInBounds(sizes, store)
    requires !InBounds(sizes, o) && forall e :: s <= e && Closed(store, e) ==> o in e
    ensures o in s
  {
    var e := s + store.Keys;
    assert Closed(store, e);
  }

  /** The entry of one byte after a constraint over `d` has been saved under it. */
  function Updated(store: Store, e: Expr, d: set<Offset>, o: Offset): BranchDep {
    if o in store then BranchDep(store[o].exprs + {e}, store[o].inputs + d) else BranchDep({e}, d)
  }

  /** save_constraint once the bytes `done` have been dealt with. */
  function SavedOn(store: Store, e: Expr, d: set<Offset>, done: set<Offset>): Store {
    map o | o in store.Keys + done :: if o in done then Updated(store, e, d, o) else store[o]
  }

  /** save_constraint */
  function Saved(store: Store, e: Expr, d: set<Offset>): Store {
    SavedOn(store, e, d, d)
  }

  lemma {:induction false} SavedStep(store: Store, e: Expr, d: set<Offset>, done: set<Offset>, o: Offset)
    requires o !in done
    ensures SavedOn(store, e, d, done + {o}) == SavedOn(store, e, d, done)[o := Updated(store, e, d, o)]
    ensures o in SavedOn(store, e, d, done) <==> o in store
    ensures o in store ==> SavedOn(store, e, d, done)[o] == store[o]
  {
  }

  /** Saving under a closed set joins the classes it meets into that one class and keeps all others. */
  lemma {:induction false} SavedPartition(store: Store, e: Expr, d: set<Offset>)
    requires Partition(store) && Closed(store, d)
    ensures Partition(Saved(store, e, d))
    ensures forall o :: o in d ==> Saved(store, e, d)[o].inputs == d
    ensures forall o :: o in store && o !in d ==> store[o].inputs !! d
  {
    var t := Saved(store, e, d);
    forall o | o in store && o !in d
      ensures store[o].inputs !! d
    {
      forall p | p in store[o].inputs
        ensures p !in d
      {
        assert p in store && store[p].inputs == store[o].inputs && o in store[p].inputs;
      }
    }
    forall o | o in d
      ensures t[o].inputs == d
    {
    }
  }

  lemma {:induction false} NothingSaved(store: Store, e: Expr, d: set<Offset>)
    ensures SavedOn(store, e, d, {}) == store
  {
  }

  lemma {:induction false} SavedInBounds(sizes: seq<nat>, store: Store, e: Expr, d: set<Offset>)
    requires StoreInBounds(sizes, store) && forall o :: o in d ==> InBounds(sizes, o)
    ensures StoreInBounds(sizes, Saved(store, e, d))
  {
  }

  // ---- saved constraints can be found from every byte they read ----

  ghost predicate Findable(store: Store, e: Expr) {
    forall o :: o in Reads(e) ==> o in store && e in store[o].exprs && Reads(e) <= store[o].inputs
  }

  ghost predicate Recorded(store: Store, saved: set<Expr>) {
    && (forall e :: e in saved ==> Findable(store, e))
    && (forall o, e :: o in store && e in store[o].exprs ==> e in saved && Reads(e) <= store[o].inputs)
  }

  lemma {:induction false} SavedRecorded(store: Store, saved: set<Expr>, e: Expr, d: set<Offset>)
    requires Recorded(store, saved) && Reads(e) <= d
    ensures Recorded(Saved(store, e, d), saved + {e})
  {
    var t := Saved(store, e, d);
    forall f | f in saved + {e}
      ensures Findable(t, f)
    {
      if f in saved { assert Findable(store, f); }
    }
  }

  /** The constraints of the bytes in `d`. */
  ghost function Nested(store: Store, d: set<Offset>): set<Expr> {
    set o, e | o in d && o in store && e in store[o].exprs :: e
  }

  /** add_nested_constraints: every constraint of the bytes in `d`, once. */
  method AddNestedConstraints(store: Store, d: set<Offset>, task: seq<Expr>) returns (out: seq<Expr>)
    ensures exists nested: seq<Expr> ::
      && out == task + nested
      && (forall e :: e in nested <==> e in Nested(store, d))
      && (forall j, k :: 0 <= j < k < |nested| ==> nested[j] != nested[k])
  {
    var nested: seq<Expr> := [];
    var added: set<Expr> := {};
    var todo := d;
    while todo != {}
      invariant todo <= d
      invariant added == Nested(store, d - todo)
      invariant forall e :: e in nested <==> e in added
      invariant forall j, k :: 0 <= j < k < |nested| ==> nested[j] != nested[k]
    {
      var off :| off in todo;
      assert d - (todo - {off}) == (d - todo) + {off};
      if off in store {
        NestedGrow(store, d - todo, off);
        added, nested := AppendNew(store[off].exprs, added, nested);
      } else {
        assert Nested(store, (d - todo) + {off}) == Nested(store, d - todo);
      }
      todo := todo - {off};
    }
    assert d - todo == d;
    out := task + nested;
  }

  lemma {:induction false} NestedGrow(store: Store, d: set<Offset>, o: Offset)
    requires o in store
    ensures Nested(store, d + {o}) == Nested(store, d) + store[o].exprs
  {
  }

  method AppendNew(more: set<Expr>, added: set<Expr>, task: seq<Expr>) returns (added': set<Expr>, task': seq<Expr>)
    requires forall e :: e in task <==> e in added
    requires forall j, k :: 0 <= j < k < |task| ==> task[j] != task[k]
    ensures added' == added + more && forall e :: e in task' <==> e in added'
    ensures forall j, k :: 0 <= j < k < |task'| ==> task'[j] != task'[k]
  {
    added', task' := added, task;
    var todo := more;
    while todo != {}
      invariant todo <= more && added' == added + (more - todo)
      invariant forall e :: e in task' <==> e in added'
      invariant forall j, k :: 0 <= j < k < |task'| ==> task'[j] != task'[k]
    {
      var e :| e in todo;
      todo := todo - {e};
      if e !in added' {
        added' := added' + {e};
        task' := task' + [e];
      }
    }
  }

  // ---- why a slice is enough ----

  /** A task reads bytes of one set only, and every constraint of the path so far is either part of it or
      reads none of these bytes. */
  ghost predicate SeparatedBy(task: seq<Expr>, path: set<Expr>, d: set<Offset>) {
    && (forall e :: e in task ==> Reads(e) <= d)
    && (forall e :: e in path ==> e in task || Reads(e) !! d)
  }

  ghost predicate Separated(task: seq<Expr>, path: set<Expr>) {
    exists d :: SeparatedBy(task, path, d)
  }

  /** A goal over a closed set, together with all constraints of that set, is separated from the rest of the path. */
  lemma {:induction false} SliceSeparates(store: Store, saved: set<Expr>, d: set<Offset>, task: seq<Expr>)
    requires Recorded(store, saved) && Closed(store, d)
    requires forall e :: e in task ==> e in Nested(store, d) || Reads(e) <= d
    requires forall e :: e in Nested(store, d) ==> e in task
    ensures Separated(task, saved)
  {
    forall e | e in task
      ensures Reads(e) <= d
    {
      if e in Nested(store, d) {
        var o :| o in d && o in store && e in store[o].exprs;
        NestedReads(store, saved, d, o, e);
      }
    }
    forall e | e in saved && e !in task
      ensures Reads(e) !! d
    {
      assert Findable(store, e);
      forall o | o in Reads(e)
        ensures o !in d
      {
        assert o in store && e in store[o].exprs;
      }
    }
    assert SeparatedBy(task, saved, d);
  }

  lemma {:induction false} NestedReads(store: Store, saved: set<Expr>, d: set<Offset>, o: Offset, e: Expr)
    requires Recorded(store, saved) && Closed(store, d) && o in d && o in store && e in store[o].exprs
    ensures Reads(e) <= d
  {
  }

  /** The bytes a solver's model gives values to. */
  type Model = map<Offset, nat>

  /** The original input with the model's bytes written over it. */
  function Patched(original: Input, model: Model): Input {
    (o: Offset) => if o in model then model[o] else original(o)
  }

  ghost function AllReads(es: seq<Expr>): set<Offset> {
    set e, o | e in es && o in Reads(e) :: o
  }

  /** What a satisfying answer means: the model mentions bytes of the expressions only, and however the other bytes
      are chosen all expressions are true. */
  ghost predicate IsModel(m: ArithMeaning, es: seq<Expr>, model: Model) {
    && model.Keys <= AllReads(es)
    && forall input: Input, e :: (forall o :: o in model ==> input(o) == model[o]) && e in es ==> True(m, input, e)
  }

  /** Slicing is sound: if the original input follows the path, then writing a model of a slice over it gives an
      input on which every expression of the slice and every constraint of the path hold, also those left out. */
  lemma {:induction false} SlicingSound(m: ArithMeaning, task: seq<Expr>, path: set<Expr>, original: Input, model: Model)
    requires Separated(task, path) && IsModel(m, task, model)
    requires forall e :: e in path ==> True(m, original, e)
    ensures forall e :: e in task ==> True(m, Patched(original, model), e)
    ensures forall e :: e in path ==> True(m, Patched(original, model), e)
  {
    var d :| SeparatedBy(task, path, d);
    var input := Patched(original, model);
    forall e | e in path && e !in task
      ensures True(m, input, e)
    {
      assert Reads(e) !! d;
      forall o | o in Reads(e)
        ensures input(o) == original(o)
      {
        if o in model { ModelInside(task, path, d, model, o); }
      }
      ReadsSuffice(m, original, input, e);
    }
  }

  lemma {:induction false} ModelInside(task: seq<Expr>, path: set<Expr>, d: set<Offset>, model: Model, o: Offset)
    requires SeparatedBy(task, path, d) && model.Keys <= AllReads(task) && o in model
    ensures o in d
  {
    var e :| e in task && o in Reads(e);
  }
}
