/** The explicit-stack, post-order traversal of find_roots, as a state machine over a node arena.
    Each lemma is one kind of step; together they show that the traversal computes `Compile`. */
module Traversal {
  import opened Base
  import L = Labels
  import opened Ast
  import opened FindRoots

  /** The loop's variables.  `rightDone` tells whether the right child of the top label has been finished. */
  datatype State = State(
    stack: seq<nat>, nodeStack: seq<nat>,
    root: nat, rootNode: nat,
    prev: nat, visited: set<nat>, rightDone: bool)

  ghost predicate InLeft(c: Config, l: nat, child: nat)
    requires Ok(c) && 0 < l < |c.nest|
  {
    HasLeft(c, l) && child == LeftOf(c, l)
  }

  /** The tree at `p` .. `hi` is what label `l` compiles to. */
  ghost predicate Compiled(c: Config, a: seq<Node>, l: nat, p: nat, hi: nat)
    requires Ok(c)
  {
    && 0 < l < |c.nest| && Compile(c, l).Some?
    && WellFormed(a, p, hi) && TreeOf(a, p, hi) == Compile(c, l).value
  }

  /** Label `l`, whose node is `p`, waits for its child label `m`, whose node is `q`. */
  ghost predicate Waiting(c: Config, a: seq<Node>, l: nat, p: nat, m: nat, q: nat)
    requires Ok(c) && 0 < l < |c.nest|
  {
    && p < q < |a|
    && if InLeft(c, l, m) then a[p] == Node(EMPTY.data, q, 0)
       else
         && HasRight(c, l) && m == RightOf(c, l)
         && if HasLeft(c, l) then
              && p < a[p].child0 < q && a[p] == Node(EMPTY.data, a[p].child0, q)
              && Compiled(c, a, LeftOf(c, l), a[p].child0, q)
            else a[p] == Node(EMPTY.data, q, 0)
  }

  ghost predicate WaitsAt(c: Config, a: seq<Node>, ls: seq<nat>, ps: seq<nat>, k: nat)
    requires Ok(c) && k + 1 < |ls| == |ps| && 0 < ls[k] < |c.nest|
  {
    Waiting(c, a, ls[k], ps[k], ls[k + 1], ps[k + 1])
  }

  /** A stack of labels and nodes in which each entry waits for the next one. */
  ghost predicate Chain(c: Config, a: seq<Node>, goal: nat, ls: seq<nat>, ps: seq<nat>)
    requires Ok(c)
  {
    && |ls| == |ps| > 0 && ls[0] == goal && ps[0] == 0
    && (forall k :: 0 <= k < |ls| ==> 0 < ls[k] < |c.nest| && ps[k] < |a| && TreeShaped(c, ls[k]))
    && (forall k :: 0 <= k < |ls| - 1 ==> WaitsAt(c, a, ls, ps, k))
  }

  ghost predicate BelowNested(c: Config, ls: seq<nat>)
    requires Ok(c) && forall k :: 0 <= k < |ls| ==> ls[k] < |c.nest|
  {
    forall j, k :: 0 <= j <= k < |ls| ==> Below(c, ls[k]) <= Below(c, ls[j])
  }

  ghost predicate ClearAt(c: Config, ls: seq<nat>, visited: set<nat>, k: nat)
    requires Ok(c) && k + 1 < |ls| && 0 < ls[k] < |c.nest|
  {
    InLeft(c, ls[k], ls[k + 1]) && HasRight(c, ls[k]) ==> Below(c, RightOf(c, ls[k])) !! visited
  }

  /** Right children still to come have not been visited. */
  ghost predicate PendingClear(c: Config, ls: seq<nat>, visited: set<nat>)
    requires Ok(c) && forall k :: 0 <= k < |ls| ==> 0 < ls[k] < |c.nest|
  {
    forall k :: 0 <= k < |ls| - 1 ==> ClearAt(c, ls, visited, k)
  }

  ghost predicate Path(c: Config, a: seq<Node>, goal: nat, ls: seq<nat>, ps: seq<nat>, visited: set<nat>)
    requires Ok(c)
  {
    Chain(c, a, goal, ls, ps) && BelowNested(c, ls) && PendingClear(c, ls, visited)
  }

  function Last(s: seq<nat>): nat
    requires |s| > 0
  {
    s[|s| - 1]
  }

  ghost function Done(c: Config, yes: bool, l: nat): Option<Tree>
    requires Ok(c)
  {
    if yes && 0 < l < |c.nest| then Compile(c, l) else None
  }

  /** The top label's finished children are in place under its still empty node. */
  ghost predicate TopReady(c: Config, a: seq<Node>, s: State)
    requires Ok(c) && |s.stack| == |s.nodeStack| > 0 && 0 < Last(s.stack) < |c.nest|
  {
    var l, p := Last(s.stack), Last(s.nodeStack);
    && (HasLeft(c, l) ==> Compile(c, LeftOf(c, l)).Some?)
    && (s.rightDone ==> HasRight(c, l) && s.prev == RightOf(c, l) && Compile(c, RightOf(c, l)).Some?)
    && (!s.rightDone && HasRight(c, l) ==> Below(c, RightOf(c, l)) !! s.visited)
    && WellFormed(a, p, |a|)
    && TreeOf(a, p, |a|) == Build(EMPTY.data, Done(c, HasLeft(c, l), LeftOf(c, l)), Done(c, s.rightDone, RightOf(c, l)))
  }

  ghost predicate Inv(c: Config, a: seq<Node>, goal: nat, s: State)
    requires Ok(c)
  {
    && |s.stack| == |s.nodeStack|
    && (s.prev == 0 || s.prev in s.visited)
    && 0 !in s.visited
    && if s.root != 0 then
         && s.root < |c.nest|
         && Path(c, a, goal, s.stack + [s.root], s.nodeStack + [s.rootNode], s.visited)
         && s.rootNode == |a| - 1 && a[s.rootNode] == EMPTY
         && Below(c, s.root) !! s.visited
       else if s.stack != [] then
         Path(c, a, goal, s.stack, s.nodeStack, s.visited) && TopReady(c, a, s)
       else
         Compiled(c, a, goal, 0, |a|)
  }

  lemma {:induction false} BelowContains(c: Config, l: nat)
    requires Ok(c) && 0 < l < |c.nest|
    ensures l in Below(c, l)
    ensures HasLeft(c, l) ==> Below(c, LeftOf(c, l)) <= Below(c, l) && LeftOf(c, l) in Below(c, LeftOf(c, l))
    ensures HasRight(c, l) ==> Below(c, RightOf(c, l)) <= Below(c, l) && RightOf(c, l) in Below(c, RightOf(c, l))
  {
    ChildFacts(c, l);
  }

  lemma {:induction false} WaitingFrame(c: Config, a: seq<Node>, b: seq<Node>, l: nat, p: nat, m: nat, q: nat)
    requires Ok(c) && 0 < l < |c.nest| && Waiting(c, a, l, p, m, q)
    requires |a| <= |b| && forall i :: 0 <= i < q ==> b[i] == a[i]
    ensures Waiting(c, b, l, p, m, q)
  {
    if !InLeft(c, l, m) && HasLeft(c, l) {
      Frame(a, b, a[p].child0, q);
    }
  }

  /** The waiting part of the stack only depends on the arena below the last node. */
  lemma {:induction false} ChainFrame(c: Config, a: seq<Node>, b: seq<Node>, goal: nat, ls: seq<nat>, ps: seq<nat>)
    requires Ok(c) && Chain(c, a, goal, ls, ps) && |a| <= |b|
    requires forall i :: 0 <= i < Last(ps) ==> b[i] == a[i]
    ensures Chain(c, b, goal, ls, ps)
  {
    hide Ok, Waiting, TreeShaped;
    forall k | 0 <= k < |ls| - 1
      ensures WaitsAt(c, b, ls, ps, k)
    {
      assert WaitsAt(c, a, ls, ps, k);
      Increasing(c, a, goal, ls, ps, k + 1);
      WaitingFrame(c, a, b, ls[k], ps[k], ls[k + 1], ps[k + 1]);
    }
  }

  lemma {:induction false} Increasing(c: Config, a: seq<Node>, goal: nat, ls: seq<nat>, ps: seq<nat>, k: nat)
    requires Ok(c) && Chain(c, a, goal, ls, ps) && k < |ls|
    ensures ps[k] <= Last(ps)
    decreases |ls| - k
  {
    if k < |ls| - 1 {
      assert WaitsAt(c, a, ls, ps, k);
      Increasing(c, a, goal, ls, ps, k + 1);
    }
  }

  lemma {:induction false} ChainExtend(c: Config, a: seq<Node>, goal: nat, ls: seq<nat>, ps: seq<nat>, m: nat, q: nat)
    requires Ok(c) && Chain(c, a, goal, ls, ps) && 0 < m < |c.nest| && TreeShaped(c, m)
    requires Waiting(c, a, Last(ls), Last(ps), m, q)
    ensures Chain(c, a, goal, ls + [m], ps + [q])
  {
    assert q < |a|;
    hide Ok, Waiting, TreeShaped;
    var ls', ps' := ls + [m], ps + [q];
    forall k | 0 <= k < |ls'| - 1
      ensures WaitsAt(c, a, ls', ps', k)
    {
      if k < |ls| - 1 { assert WaitsAt(c, a, ls, ps, k); }
    }
  }

  lemma {:induction false} ChainShrink(c: Config, a: seq<Node>, goal: nat, ls: seq<nat>, ps: seq<nat>)
    requires Ok(c) && Chain(c, a, goal, ls, ps) && |ls| > 1
    ensures Chain(c, a, goal, ls[..|ls| - 1], ps[..|ps| - 1])
    ensures Waiting(c, a, ls[|ls| - 2], ps[|ps| - 2], Last(ls), Last(ps))
  {
    hide Ok, Waiting, TreeShaped;
    var ls', ps' := ls[..|ls| - 1], ps[..|ps| - 1];
    forall k | 0 <= k < |ls'| - 1
      ensures WaitsAt(c, a, ls', ps', k)
    {
      assert WaitsAt(c, a, ls, ps, k);
    }
    assert WaitsAt(c, a, ls, ps, |ls| - 2);
  }

  /** Going down to a child of the last label. */
  lemma {:induction false} PathExtend(c: Config, a: seq<Node>, goal: nat, ls: seq<nat>, ps: seq<nat>, visited: set<nat>,
                                      m: nat, q: nat)
    requires Ok(c) && Path(c, a, goal, ls, ps, visited) && 0 < m < |c.nest|
    requires Waiting(c, a, Last(ls), Last(ps), m, q)
    requires InLeft(c, Last(ls), m) && HasRight(c, Last(ls)) ==> Below(c, RightOf(c, Last(ls))) !! visited
    ensures Path(c, a, goal, ls + [m], ps + [q], visited)
  {
    BelowContains(c, Last(ls));
    ChainExtend(c, a, goal, ls, ps, m, q);
    var ls' := ls + [m];
    forall j, k | 0 <= j <= k < |ls'|
      ensures Below(c, ls'[k]) <= Below(c, ls'[j])
    {
      if k == |ls| && j < |ls| { assert Below(c, ls[|ls| - 1]) <= Below(c, ls[j]); }
    }
    forall k | 0 <= k < |ls'| - 1
      ensures ClearAt(c, ls', visited, k)
    {
      if k < |ls| - 1 { assert ClearAt(c, ls, visited, k); }
    }
  }

  /** Leaving the last label, which has just been visited. */
  lemma {:induction false} PathShrink(c: Config, a: seq<Node>, goal: nat, ls: seq<nat>, ps: seq<nat>, visited: set<nat>)
    requires Ok(c) && Path(c, a, goal, ls, ps, visited) && |ls| > 1
    ensures Path(c, a, goal, ls[..|ls| - 1], ps[..|ps| - 1], visited + {Last(ls)})
    ensures var l := ls[|ls| - 2]; InLeft(c, l, Last(ls)) && HasRight(c, l) ==>
      Below(c, RightOf(c, l)) !! visited + {Last(ls)}
  {
    var ls' := ls[..|ls| - 1];
    ChainShrink(c, a, goal, ls, ps);
    BelowContains(c, Last(ls));
    forall k | 0 <= k < |ls| - 1
      ensures ClearAt(c, ls, visited + {Last(ls)}, k)
    {
      assert ClearAt(c, ls, visited, k);
      assert Below(c, ls[|ls| - 1]) <= Below(c, ls[k + 1]);
      assert TreeShaped(c, ls[k]);
    }
    forall k | 0 <= k < |ls'| - 1
      ensures ClearAt(c, ls', visited + {Last(ls)}, k)
    {
      assert ClearAt(c, ls, visited + {Last(ls)}, k);
    }
    assert ClearAt(c, ls, visited + {Last(ls)}, |ls| - 2);
  }

  // ---- the steps ----

  lemma {:induction false} StepStart(c: Config, goal: nat)
    requires Ok(c) && 0 < goal < |c.nest| && TreeShaped(c, goal)
    ensures Inv(c, [EMPTY], goal, State([], [], goal, 0, 0, {}, false))
  {
    assert [] + [goal] == [goal];
  }

  /** Going down to a label that has no left child: it becomes the top of the stack. */
  lemma {:induction false} StepEnter(c: Config, a: seq<Node>, goal: nat, s: State)
    requires Ok(c) && Inv(c, a, goal, s) && s.root != 0 && !HasLeft(c, s.root)
    ensures Inv(c, a, goal, s.(stack := s.stack + [s.root], nodeStack := s.nodeStack + [s.rootNode],
                               root := 0, rightDone := false))
  {
    BelowContains(c, s.root);
  }

  /** Going down to a label and at once to its left child, for which a node is added. */
  lemma {:induction false} StepLeft(c: Config, a: seq<Node>, goal: nat, s: State)
    requires Ok(c) && Inv(c, a, goal, s) && s.root != 0 && HasLeft(c, s.root)
    ensures Inv(c, Linked(a, s.rootNode, |a|) + [EMPTY], goal,
                s.(stack := s.stack + [s.root], nodeStack := s.nodeStack + [s.rootNode],
                   root := LeftOf(c, s.root), rootNode := |a|, rightDone := false))
  {
    var ls, ps := s.stack + [s.root], s.nodeStack + [s.rootNode];
    var b := Linked(a, s.rootNode, |a|) + [EMPTY];
    ChildFacts(c, s.root);
    BelowContains(c, s.root);
    ChainFrame(c, a, b, goal, ls, ps);
    PathExtend(c, b, goal, ls, ps, s.visited, LeftOf(c, s.root), |a|);
  }

  /** Going down to the right child of the top label. */
  lemma {:induction false} StepRight(c: Config, a: seq<Node>, goal: nat, s: State)
    requires Ok(c) && Inv(c, a, goal, s) && s.root == 0 && s.stack != []
    requires !s.rightDone && HasRight(c, Last(s.stack))
    ensures Last(s.nodeStack) < |a| && a[Last(s.nodeStack)].child1 == 0
    ensures Inv(c, Linked(a, Last(s.nodeStack), |a|) + [EMPTY], goal,
                s.(root := RightOf(c, Last(s.stack)), rootNode := |a|))
  {
    var l, p := Last(s.stack), Last(s.nodeStack);
    RightWaiting(c, a, l, p);
    BelowContains(c, l);
    hide Below, Compile, HasLeft, HasRight, LeftOf, RightOf, Waiting, WellFormed, TreeOf;
    var b := Linked(a, p, |a|) + [EMPTY];
    ChainFrame(c, a, b, goal, s.stack, s.nodeStack);
    PathExtend(c, b, goal, s.stack, s.nodeStack, s.visited, RightOf(c, l), |a|);
  }

  lemma {:induction false} RightWaiting(c: Config, a: seq<Node>, l: nat, p: nat)
    requires Ok(c) && 0 < l < |c.nest| && TreeShaped(c, l) && HasRight(c, l)
    requires HasLeft(c, l) ==> Compile(c, LeftOf(c, l)).Some?
    requires WellFormed(a, p, |a|)
    requires TreeOf(a, p, |a|) == Build(EMPTY.data, Done(c, HasLeft(c, l), LeftOf(c, l)), None)
    ensures p < |a| && a[p].child1 == 0
    ensures Waiting(c, Linked(a, p, |a|) + [EMPTY], l, p, RightOf(c, l), |a|)
    ensures !InLeft(c, l, RightOf(c, l))
  {
    BelowContains(c, l);
    if HasLeft(c, l) {
      Frame(a, Linked(a, p, |a|) + [EMPTY], a[p].child0, |a|);
    }
  }

  /** The test the loop makes to tell whether the right child is still to come. */
  lemma {:induction false} RightTest(c: Config, a: seq<Node>, goal: nat, s: State)
    requires Ok(c) && Inv(c, a, goal, s) && s.root == 0 && s.stack != []
    ensures (HasRight(c, Last(s.stack)) && s.prev != RightOf(c, Last(s.stack))) <==> (HasRight(c, Last(s.stack)) && !s.rightDone)
  {
    BelowContains(c, Last(s.stack));
    ChildFacts(c, Last(s.stack));
  }

  ghost function Popped(s: State, rightDone: bool): State
    requires |s.stack| == |s.nodeStack| > 0
  {
    s.(stack := s.stack[..|s.stack| - 1], nodeStack := s.nodeStack[..|s.nodeStack| - 1],
       prev := Last(s.stack), visited := s.visited + {Last(s.stack)}, rightDone := rightDone)
  }

  /** The top label has been rewritten into its formula, in place, and nothing waits for it. */
  lemma {:induction false} StepPopLast(c: Config, a: seq<Node>, b: seq<Node>, goal: nat, s: State)
    requires Ok(c) && Inv(c, a, goal, s) && s.root == 0 && |s.stack| == 1
    requires Compiled(c, b, Last(s.stack), Last(s.nodeStack), |b|)
    ensures Inv(c, b, goal, Popped(s, false))
  {
    hide WellFormed, TreeOf, Compile, Below, TreeShaped;
  }

  /** The top label has been rewritten into its formula, in place: its parent gets on with its other child. */
  lemma {:induction false} StepPop(c: Config, a: seq<Node>, b: seq<Node>, goal: nat, s: State)
    requires Ok(c) && Inv(c, a, goal, s) && s.root == 0 && |s.stack| > 1
    requires |b| == |a| && forall i :: 0 <= i < Last(s.nodeStack) ==> b[i] == a[i]
    requires Compiled(c, b, Last(s.stack), Last(s.nodeStack), |b|)
    ensures 0 < s.stack[|s.stack| - 2] < |c.nest|
    ensures Inv(c, b, goal, Popped(s, !InLeft(c, s.stack[|s.stack| - 2], Last(s.stack))))
  {
    hide WellFormed, TreeOf, Compile, Below, Ok;
    var n := |s.stack| - 1;
    var ls, ps := s.stack[..n], s.nodeStack[..n];
    ChainFrame(c, a, b, goal, s.stack, s.nodeStack);
    PathShrink(c, b, goal, s.stack, s.nodeStack, s.visited);
    ChainShrink(c, b, goal, s.stack, s.nodeStack);
    assert TreeShaped(c, s.stack[n - 1]) && 0 < s.stack[n] < |c.nest|;
    hide Chain, BelowNested, PendingClear, TreeShaped, Waiting;
    ParentReady(c, b, s.stack[n - 1], s.nodeStack[n - 1], s.stack[n], s.nodeStack[n]);
    assert Last(ls) == s.stack[n - 1] && Last(ps) == s.nodeStack[n - 1];
  }

  lemma {:induction false} ParentReady(c: Config, b: seq<Node>, l0: nat, p0: nat, l: nat, p: nat)
    requires Ok(c) && 0 < l0 < |c.nest| && TreeShaped(c, l0)
    requires Waiting(c, b, l0, p0, l, p) && Compiled(c, b, l, p, |b|)
    ensures HasLeft(c, l0) ==> Compile(c, LeftOf(c, l0)).Some?
    ensures !InLeft(c, l0, l) ==> HasRight(c, l0) && l == RightOf(c, l0) && Compile(c, RightOf(c, l0)).Some?
    ensures WellFormed(b, p0, |b|)
    ensures TreeOf(b, p0, |b|) ==
      Build(EMPTY.data, Done(c, HasLeft(c, l0), LeftOf(c, l0)), Done(c, !InLeft(c, l0, l), RightOf(c, l0)))
  {
    ChildFacts(c, l0);
  }
}
